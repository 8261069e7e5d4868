/** The scene store's state and its commands. Each command is a synchronous
    transition from the whole state to a new whole state; here each one is a
    function from the old state to the new one. */
module Scene {
  import opened SceneTypes
  import opened EntryLists
  import opened GroupNames
  import opened Hierarchy

  /** The store's four fields. `selectedObject` is None where the store holds null. */
  datatype State = State(
    objects: seq<Entry>,
    selectedObject: Option<Renderable>,
    selectedObjects: set<Id>,
    transformMode: TransformMode)

  /** The state a new store starts in. */
  const Initial := State([], None, {}, Translate)

  /** What every command keeps: ids in the object list are distinct, and
      parent references form no cycle. */
  ghost predicate Valid(s: State)
  {
    UniqueIds(s.objects) && Acyclic(s.objects)
  }

  /** addObject: appends one visible entry under a fresh id. The id is drawn
      inside the command, so the caller's parent id is never the new id. */
  function AddObject(s: State, obj: Renderable, name: string, parentId: Option<Id>, newId: Id): (r: State)
    requires FreshId(s.objects, newId) && parentId != Some(newId)
    ensures |r.objects| == |s.objects| + 1 && r.objects[..|s.objects|] == s.objects
    ensures r.objects[|s.objects|] == Entry(newId, obj, name, true, parentId)
    ensures Ids(r.objects) == Ids(s.objects) + {newId}
    ensures Valid(r) <==> Valid(s)
    ensures r.selectedObject == s.selectedObject && r.selectedObjects == s.selectedObjects
    ensures r.transformMode == s.transformMode
  {
    var e := Entry(newId, obj, name, true, parentId);
    UniqueIdsSnoc(s.objects, e);
    AppendedAcyclic(s.objects, e);
    s.(objects := s.objects + [e])
  }

  /** The ids removeObject drops: the id itself and those of its direct children. */
  function IdsToRemove(objects: seq<Entry>, id: Id): (r: set<Id>)
    ensures id in r
    ensures forall e :: e in objects && e.parentId == Some(id) ==> e.id in r
    ensures forall x :: x in r && x != id ==> exists e :: e in objects && e.id == x && e.parentId == Some(id)
  {
    {id} + ChildIds(objects, id)
  }

  /** removeObject: drops the entry and its direct children from the list and
      from the multi-selection, and clears the single selection when it is the
      removed entry's renderable. */
  function RemoveObject(s: State, id: Id): (r: State)
    ensures forall e :: e in r.objects <==> e in s.objects && e.id != id && e.id !in ChildIds(s.objects, id)
    ensures forall x :: x in r.selectedObjects <==> x in s.selectedObjects && x != id && x !in ChildIds(s.objects, id)
    ensures r.selectedObject == s.selectedObject || r.selectedObject == None
    ensures id !in Ids(s.objects) ==> r.selectedObject == s.selectedObject
    ensures r.transformMode == s.transformMode
  {
    var toRemove := IdsToRemove(s.objects, id);
    var found := Find(s.objects, id);
    State(
      RemoveIds(s.objects, toRemove),
      if found.Some? && Some(found.value.obj) == s.selectedObject then None else s.selectedObject,
      s.selectedObjects - toRemove,
      s.transformMode)
  }

  /** With distinct ids, removeObject drops exactly the entry and the entries
      whose parent it is, keeps the list valid, and clears the single
      selection exactly when it is the removed entry's renderable. */
  lemma RemoveObjectValid(s: State, id: Id)
    requires Valid(s)
    ensures var r := RemoveObject(s, id);
      Valid(r) &&
      (forall e :: e in r.objects <==> e in s.objects && e.id != id && e.parentId != Some(id)) &&
      (r.selectedObject != s.selectedObject <==>
        exists e :: e in s.objects && e.id == id && Some(e.obj) == s.selectedObject)
  {
    var r := RemoveObject(s, id);
    RemoveIdsUnique(s.objects, IdsToRemove(s.objects, id));
    SubListAcyclic(s.objects, r.objects);
    forall e | e in s.objects && e.id in ChildIds(s.objects, id) ensures e.parentId == Some(id) {
      var c :| c in s.objects && c.parentId == Some(id) && c.id == e.id;
      SameIdSameEntry(s.objects, c, e);
    }
    forall e | e in s.objects && e.id == id && Some(e.obj) == s.selectedObject ensures r.selectedObject != s.selectedObject {
      FindUnique(s.objects, e);
    }
  }

  /** removeObject with an id that neither names an entry nor is any entry's
      parent changes nothing. */
  lemma RemoveObjectUnknownId(s: State, id: Id)
    requires forall e :: e in s.objects ==> e.id != id && e.parentId != Some(id)
    ensures RemoveObject(s, id).objects == s.objects
    ensures RemoveObject(s, id).selectedObject == s.selectedObject
  {
    assert ChildIds(s.objects, id) == {};
    RemoveIdsNothingToRemove(s.objects, IdsToRemove(s.objects, id));
    forall e | e in s.objects ensures e.id != id { }
  }

  /** Removal reaches one level only: a grandchild of the removed entry stays,
      and its parent reference now names no entry. */
  lemma RemoveObjectLeavesGrandchild(s: State, id: Id, child: Entry, grandchild: Entry)
    requires Valid(s)
    requires child in s.objects && child.parentId == Some(id) && child.id != id
    requires grandchild in s.objects && grandchild.parentId == Some(child.id) && grandchild.id != id
    ensures grandchild in RemoveObject(s, id).objects
    ensures child.id !in Ids(RemoveObject(s, id).objects)
  {
    RemoveObjectValid(s, id);
    RemoveIdsUnique(s.objects, IdsToRemove(s.objects, id));
  }

  /** Removing a parent takes a selected child off the list and out of the
      multi-selection, yet the child's renderable stays the single selection:
      only the entry carrying the removed id is compared with it. */
  lemma RemoveParentKeepsSelectedChild(s: State, id: Id, child: Entry)
    requires Valid(s)
    requires child in s.objects && child.parentId == Some(id) && child.id != id
    requires s.selectedObject == Some(child.obj)
    requires forall e :: e in s.objects && e.id == id ==> e.obj != child.obj
    ensures child !in RemoveObject(s, id).objects
    ensures child.id !in RemoveObject(s, id).selectedObjects
    ensures RemoveObject(s, id).selectedObject == Some(child.obj)
  {
    RemoveObjectValid(s, id);
  }

  /** Removing a group lowers the number the next new group is named after. */
  lemma RemoveGroupLowersGroupCount(s: State, g: Entry)
    requires g in s.objects && g.obj.kind == Group
    ensures CountGroups(RemoveObject(s, g.id).objects) < CountGroups(s.objects)
  {
    CountGroupsRemoveIds(s.objects, IdsToRemove(s.objects, g.id), g);
  }

  /** toggleObjectSelection: flips membership of the id in the multi-selection;
      when exactly one id is then selected and the toggled id names an entry,
      the single selection becomes that entry's renderable. */
  function ToggleObjectSelection(s: State, id: Id): (r: State)
    ensures id in r.selectedObjects <==> id !in s.selectedObjects
    ensures forall x :: x != id ==> (x in r.selectedObjects <==> x in s.selectedObjects)
    ensures |r.selectedObjects| == 1 && id in Ids(s.objects) ==>
      r.selectedObject.Some? && exists e :: e in s.objects && e.id == id && r.selectedObject == Some(e.obj)
    ensures !(|r.selectedObjects| == 1 && id in Ids(s.objects)) ==> r.selectedObject == s.selectedObject
    ensures r.objects == s.objects && r.transformMode == s.transformMode
  {
    var newSelection := if id in s.selectedObjects then s.selectedObjects - {id} else s.selectedObjects + {id};
    var found := Find(s.objects, id);
    s.(selectedObjects := newSelection,
       selectedObject := if |newSelection| == 1 && found.Some? then Some(found.value.obj) else s.selectedObject)
  }

  /** With distinct ids, when one id is left selected the single selection is
      the renderable of the entry with the toggled id. */
  lemma ToggleObjectSelectionTarget(s: State, id: Id, e: Entry)
    requires Valid(s) && e in s.objects && e.id == id
    requires |ToggleObjectSelection(s, id).selectedObjects| == 1
    ensures ToggleObjectSelection(s, id).selectedObject == Some(e.obj)
  {
    FindUnique(s.objects, e);
  }

  /** Deselecting one of two selected ids makes the single selection the
      renderable of the id just deselected, not of the one still selected. */
  lemma ToggleOffTargetsDeselected(s: State, id: Id, other: Id, e: Entry)
    requires Valid(s) && e in s.objects && e.id == id
    requires s.selectedObjects == {id, other} && id != other
    ensures ToggleObjectSelection(s, id).selectedObjects == {other}
    ensures ToggleObjectSelection(s, id).selectedObject == Some(e.obj)
  {
    var r := ToggleObjectSelection(s, id);
    assert r.selectedObjects == {other};
    ToggleObjectSelectionTarget(s, id, e);
  }

  /** Toggling the id of a hidden entry into an empty selection makes that
      hidden entry's renderable the single selection: the lookup does not ask
      whether the entry is visible. */
  lemma ToggleSelectsHiddenEntry(s: State, e: Entry)
    requires Valid(s) && e in s.objects && !e.visible && s.selectedObjects == {}
    ensures ToggleObjectSelection(s, e.id).selectedObjects == {e.id}
    ensures ToggleObjectSelection(s, e.id).selectedObject == Some(e.obj)
    ensures e in ToggleObjectSelection(s, e.id).objects && !e.visible
  {
    var r := ToggleObjectSelection(s, e.id);
    assert r.selectedObjects == {e.id};
    ToggleObjectSelectionTarget(s, e.id, e);
  }

  /** toggleVisibility: negates the visibility of the entries with the id and
      clears the single selection when the found entry is now hidden and is the
      selected renderable. */
  function ToggleVisibility(s: State, id: Id): (r: State)
    ensures |r.objects| == |s.objects|
    ensures forall i :: 0 <= i < |s.objects| ==>
      r.objects[i] == if s.objects[i].id == id then s.objects[i].(visible := !s.objects[i].visible) else s.objects[i]
    ensures r.selectedObject == s.selectedObject || r.selectedObject == None
    ensures r.selectedObject != s.selectedObject <==>
      Find(s.objects, id).Some? && Find(s.objects, id).value.visible && Some(Find(s.objects, id).value.obj) == s.selectedObject
    ensures r.selectedObjects == s.selectedObjects && r.transformMode == s.transformMode
  {
    var updated := VisibilityFlipped(s.objects, id);
    var toggled := Find(updated, id);
    FindVisibilityFlipped(s.objects, id);
    assert toggled.Some? ==> toggled.value.obj == Find(s.objects, id).value.obj && toggled.value.visible == !Find(s.objects, id).value.visible;
    s.(objects := updated,
       selectedObject := if toggled.Some? && !toggled.value.visible && Some(toggled.value.obj) == s.selectedObject
                         then None else s.selectedObject)
  }

  /** toggleVisibility keeps the ids and the parent references, so it keeps
      the list valid. */
  lemma ToggleVisibilityIds(s: State, id: Id)
    ensures Ids(ToggleVisibility(s, id).objects) == Ids(s.objects)
    ensures Valid(ToggleVisibility(s, id)) <==> Valid(s)
  {
    AlignedIds(s.objects, ToggleVisibility(s, id).objects);
    SameLinksAcyclic(s.objects, ToggleVisibility(s, id).objects);
  }

  /** toggleVisibility with an id no entry carries changes nothing. */
  lemma ToggleVisibilityUnknownId(s: State, id: Id)
    requires id !in Ids(s.objects)
    ensures ToggleVisibility(s, id) == s
  {
    var r := ToggleVisibility(s, id);
    forall i | 0 <= i < |s.objects| ensures r.objects[i] == s.objects[i] {
      assert s.objects[i] in s.objects;
    }
  }

  /** With distinct ids, hiding the selected renderable's entry is exactly what
      clears the single selection. */
  lemma ToggleVisibilityClearsSelection(s: State, id: Id)
    requires Valid(s)
    ensures ToggleVisibility(s, id).selectedObject != s.selectedObject <==>
      exists e :: e in s.objects && e.id == id && e.visible && Some(e.obj) == s.selectedObject
  {
    forall e | e in s.objects && e.id == id {
      FindUnique(s.objects, e);
    }
  }

  /** Toggling twice restores the object list. */
  lemma ToggleVisibilityTwice(s: State, id: Id)
    ensures ToggleVisibility(ToggleVisibility(s, id), id).objects == s.objects
  {
  }

  /** updateObjectName: the entries with the id take the new name; nothing else changes. */
  function UpdateObjectName(s: State, id: Id, name: string): (r: State)
    ensures |r.objects| == |s.objects|
    ensures forall i :: 0 <= i < |s.objects| ==>
      r.objects[i] == if s.objects[i].id == id then s.objects[i].(name := name) else s.objects[i]
    ensures Ids(r.objects) == Ids(s.objects) && (Valid(r) <==> Valid(s))
    ensures r.selectedObject == s.selectedObject && r.selectedObjects == s.selectedObjects
    ensures r.transformMode == s.transformMode
  {
    var updated := Renamed(s.objects, id, name);
    AlignedIds(s.objects, updated);
    SameLinksAcyclic(s.objects, updated);
    s.(objects := updated)
  }

  /** updateObjectName with an id no entry carries changes nothing. */
  lemma UpdateObjectNameUnknownId(s: State, id: Id, name: string)
    requires id !in Ids(s.objects)
    ensures UpdateObjectName(s, id, name) == s
  {
    var r := UpdateObjectName(s, id, name);
    forall i | 0 <= i < |s.objects| ensures r.objects[i] == s.objects[i] {
      assert s.objects[i] in s.objects;
    }
  }

  /** After renaming, looking the id up gives the new name. */
  lemma UpdateObjectNameFind(s: State, id: Id, name: string)
    requires id in Ids(s.objects)
    ensures match Find(UpdateObjectName(s, id, name).objects, id)
      case None => false
      case Some(e) => e.name == name
  {
    var r := UpdateObjectName(s, id, name);
    var e := Find(r.objects, id).value;
    var i :| 0 <= i < |r.objects| && r.objects[i] == e;
  }

  /** The state createGroup builds once the group's name is fixed: every
      selected entry is parented to the group, whose entry is appended at the
      end, and the group becomes the only selection. */
  function Grouped(s: State, group: Renderable, groupId: Id, name: string): (r: State)
    ensures |r.objects| == |s.objects| + 1
    ensures forall i :: 0 <= i < |s.objects| ==>
      r.objects[i] == if s.objects[i].id in s.selectedObjects then s.objects[i].(parentId := Some(groupId)) else s.objects[i]
    ensures r.objects[|s.objects|] == Entry(groupId, group, name, true, None)
    ensures r.selectedObjects == {groupId} && r.selectedObject == Some(group) && r.transformMode == s.transformMode
  {
    State(Reparented(s.objects, s.selectedObjects, groupId) + [Entry(groupId, group, name, true, None)],
          Some(group), {groupId}, s.transformMode)
  }

  /** The name the store gives a group it appends to `objects`: "Group "
      followed by one more than the number of groups already in the list. */
  function NextGroupName(objects: seq<Entry>): (name: string)
    ensures |name| > 6 && name[..6] == "Group "
    ensures forall i :: 6 <= i < |name| ==> IsDigit(name[i])
    ensures DecimalValue(name[6..]) == CountGroups(objects) + 1
    ensures name[6] != '0'
  {
    GroupName(CountGroups(objects) + 1)
  }

  /** The first group in a list is called "Group 1". */
  lemma NextGroupNameWithoutGroups(objects: seq<Entry>)
    requires CountGroups(objects) == 0
    ensures NextGroupName(objects) == "Group 1"
  {
    FirstGroupName();
  }

  /** Reparenting keeps the renderables, so the new group's name counts the
      groups present before createGroup. */
  lemma NextGroupNameReparented(objects: seq<Entry>, selected: set<Id>, groupId: Id)
    ensures NextGroupName(Reparented(objects, selected, groupId)) == NextGroupName(objects)
  {
    var updated := Reparented(objects, selected, groupId);
    AlignedCountGroups(objects, updated);
  }

  /** createGroup: with fewer than two ids selected nothing changes; otherwise
      the selection is grouped under the name `nameOf` gives the reparented
      list. `group` is the new group node, `groupId` its fresh id, and `nameOf`
      the naming scheme, which for the store is `NextGroupName`. */
  function CreateGroup(s: State, group: Renderable, groupId: Id, nameOf: seq<Entry> -> string): (r: State)
    requires group.kind == Group && FreshId(s.objects, groupId)
    ensures |s.selectedObjects| < 2 ==> r == s
    ensures |s.selectedObjects| >= 2 ==>
      r == Grouped(s, group, groupId, nameOf(Reparented(s.objects, s.selectedObjects, groupId)))
  {
    if |s.selectedObjects| < 2 then s
    else
      var updated := Reparented(s.objects, s.selectedObjects, groupId);
      Grouped(s, group, groupId, nameOf(updated))
  }

  /** After grouping, the group's children are exactly the selected ids that
      name entries. */
  lemma GroupedChildren(s: State, group: Renderable, groupId: Id, name: string)
    requires FreshId(s.objects, groupId)
    ensures ChildIds(Grouped(s, group, groupId, name).objects, groupId) == s.selectedObjects * Ids(s.objects)
  {
    var updated := Reparented(s.objects, s.selectedObjects, groupId);
    ReparentedChildren(s.objects, s.selectedObjects, groupId);
    ChildIdsSnoc(updated, Entry(groupId, group, name, true, None), groupId);
  }

  /** Grouping adds exactly one group to the list. */
  lemma GroupedCountsUp(s: State, group: Renderable, groupId: Id, name: string)
    requires group.kind == Group
    ensures CountGroups(Grouped(s, group, groupId, name).objects) == CountGroups(s.objects) + 1
  {
    var updated := Reparented(s.objects, s.selectedObjects, groupId);
    AlignedCountGroups(s.objects, updated);
    CountGroupsAppend(updated, Entry(groupId, group, name, true, None));
  }

  /** Grouping adds only the new id, keeps ids distinct exactly when they
      were, and keeps the list valid: the new group is a root nothing
      else refers to, so reparenting under it closes no cycle. */
  lemma GroupedIds(s: State, group: Renderable, groupId: Id, name: string)
    requires FreshId(s.objects, groupId)
    ensures Ids(Grouped(s, group, groupId, name).objects) == Ids(s.objects) + {groupId}
    ensures UniqueIds(Grouped(s, group, groupId, name).objects) <==> UniqueIds(s.objects)
    ensures Valid(s) ==> Valid(Grouped(s, group, groupId, name))
  {
    var updated := Reparented(s.objects, s.selectedObjects, groupId);
    AlignedIds(s.objects, updated);
    UniqueIdsSnoc(updated, Entry(groupId, group, name, true, None));
    if Valid(s) {
      GroupedAcyclic(s.objects, s.selectedObjects, Entry(groupId, group, name, true, None));
    }
  }

  /** createGroup adds exactly one group, so the next one gets the next number. */
  lemma CreateGroupCountsUp(s: State, group: Renderable, groupId: Id, nameOf: seq<Entry> -> string)
    requires group.kind == Group && FreshId(s.objects, groupId) && |s.selectedObjects| >= 2
    ensures CountGroups(CreateGroup(s, group, groupId, nameOf).objects) == CountGroups(s.objects) + 1
  {
    var name := nameOf(Reparented(s.objects, s.selectedObjects, groupId));
    GroupedCountsUp(s, group, groupId, name);
  }

  /** With the store's naming scheme the new group is named after the groups
      present before createGroup: "Group k" with k one more than their number. */
  lemma CreateGroupName(s: State, group: Renderable, groupId: Id)
    requires group.kind == Group && FreshId(s.objects, groupId) && |s.selectedObjects| >= 2
    ensures CreateGroup(s, group, groupId, NextGroupName).objects[|s.objects|].name == NextGroupName(s.objects)
  {
    var name := NextGroupName(Reparented(s.objects, s.selectedObjects, groupId));
    NextGroupNameReparented(s.objects, s.selectedObjects, groupId);
    assert CreateGroup(s, group, groupId, NextGroupName).objects[|s.objects|].name == name;
  }

  /** ungroup: when the id names an entry, that entry leaves the list, the
      entries parented to it lose their parent, and both selections are
      cleared; an unknown id changes nothing. */
  function Ungroup(s: State, groupId: Id): (r: State)
    ensures groupId !in Ids(s.objects) ==> r == s
    ensures groupId in Ids(s.objects) ==>
      r.selectedObjects == {} && r.selectedObject == None && r.transformMode == s.transformMode &&
      Ids(r.objects) == Ids(s.objects) - {groupId} &&
      ChildIds(r.objects, groupId) == {}
  {
    if Find(s.objects, groupId).None? then s
    else
      var kept := RemoveIds(s.objects, {groupId});
      var r := State(ParentCleared(kept, groupId), None, {}, s.transformMode);
      AlignedIds(kept, r.objects);
      RemoveIdsIds(s.objects, {groupId});
      ParentClearedNoChildren(kept, groupId);
      r
  }

  /** With distinct ids, ungroup keeps every other entry, in order of the old
      list, each with a parent reference to the group cleared. */
  lemma UngroupValid(s: State, groupId: Id)
    requires Valid(s) && groupId in Ids(s.objects)
    ensures var r := Ungroup(s, groupId);
      Valid(r) && |r.objects| == |s.objects| - 1 &&
      forall e :: e in s.objects && e.id != groupId ==>
        (if e.parentId == Some(groupId) then e.(parentId := None) else e) in r.objects
  {
    var kept := RemoveIds(s.objects, {groupId});
    RemoveIdsUnique(s.objects, {groupId});
    RemoveOneIdLength(s.objects, groupId);
    AlignedIds(kept, ParentCleared(kept, groupId));
    SubListAcyclic(s.objects, kept);
    LinksDroppedAcyclic(kept, ParentCleared(kept, groupId));
    ParentClearedMembers(kept, groupId);
  }

  /** Filtering the group's id out of the grouped list leaves the
      reparented entries. */
  lemma GroupedWithoutGroup(s: State, group: Renderable, groupId: Id, name: string)
    requires FreshId(s.objects, groupId)
    ensures groupId in Ids(Grouped(s, group, groupId, name).objects)
    ensures RemoveIds(Grouped(s, group, groupId, name).objects, {groupId}) == Reparented(s.objects, s.selectedObjects, groupId)
  {
    var updated := Reparented(s.objects, s.selectedObjects, groupId);
    var entry := Entry(groupId, group, name, true, None);
    assert entry in updated + [entry];
    AlignedIds(s.objects, updated);
    forall e | e in updated ensures e.id !in {groupId} {
      assert e.id in Ids(updated);
    }
    RemoveIdsNothingToRemove(updated, {groupId});
    RemoveIdsAppend(updated, [entry], {groupId});
    assert RemoveIds([entry], {groupId}) == [];
    assert updated + [] == updated;
  }

  /** Ungrouping a group just created clears the parent references it set. */
  lemma UngroupNewGroup(s: State, group: Renderable, groupId: Id, nameOf: seq<Entry> -> string)
    requires group.kind == Group && FreshId(s.objects, groupId) && |s.selectedObjects| >= 2
    ensures Ungroup(CreateGroup(s, group, groupId, nameOf), groupId) ==
      State(ParentCleared(Reparented(s.objects, s.selectedObjects, groupId), groupId), None, {}, s.transformMode)
  {
    var name := nameOf(Reparented(s.objects, s.selectedObjects, groupId));
    GroupedWithoutGroup(s, group, groupId, name);
  }

  /** Grouping and then ungrouping the new group gives back the object list
      with the selected entries' parent references cleared, and clears both
      selections. */
  lemma CreateGroupThenUngroup(s: State, group: Renderable, groupId: Id, nameOf: seq<Entry> -> string)
    requires group.kind == Group && FreshId(s.objects, groupId) && |s.selectedObjects| >= 2
    ensures var r := Ungroup(CreateGroup(s, group, groupId, nameOf), groupId);
      |r.objects| == |s.objects| &&
      (forall i :: 0 <= i < |s.objects| ==>
        r.objects[i] == if s.objects[i].id in s.selectedObjects then s.objects[i].(parentId := None) else s.objects[i]) &&
      r.selectedObject == None && r.selectedObjects == {} && r.transformMode == s.transformMode
  {
    UngroupNewGroup(s, group, groupId, nameOf);
    ParentClearedReparented(s.objects, s.selectedObjects, groupId);
  }

  /** When the selected entries had no parent, grouping then ungrouping
      restores the object list exactly. */
  lemma CreateGroupThenUngroupRestores(s: State, group: Renderable, groupId: Id, nameOf: seq<Entry> -> string)
    requires group.kind == Group && FreshId(s.objects, groupId) && |s.selectedObjects| >= 2
    requires forall e :: e in s.objects && e.id in s.selectedObjects ==> e.parentId == None
    ensures Ungroup(CreateGroup(s, group, groupId, nameOf), groupId) == s.(selectedObject := None, selectedObjects := {})
  {
    var r := Ungroup(CreateGroup(s, group, groupId, nameOf), groupId);
    CreateGroupThenUngroup(s, group, groupId, nameOf);
    forall i | 0 <= i < |s.objects| ensures r.objects[i] == s.objects[i] {
      assert s.objects[i] in s.objects;
    }
    assert r.objects == s.objects;
  }

  /** Adding a box and then a sphere to a new store: the list holds both
      entries in that order, visible and parentless, and nothing is selected. */
  function TwoAdded(box: Renderable, sphere: Renderable): (s: State)
    ensures s.objects == [Entry("a", box, "Box", true, None), Entry("b", sphere, "Sphere", true, None)]
    ensures s.selectedObjects == {} && s.selectedObject == None && s.transformMode == Translate
  {
    var s1 := AddObject(Initial, box, "Box", None, "a");
    assert s1.objects == [Entry("a", box, "Box", true, None)];
    AddObject(s1, sphere, "Sphere", None, "b")
  }

  /** Toggling the box and then the sphere into the selection: both ids are
      selected, and the box, toggled first, stays the single selection. */
  function TwoSelected(box: Renderable, sphere: Renderable): (s: State)
    ensures s.objects == [Entry("a", box, "Box", true, None), Entry("b", sphere, "Sphere", true, None)]
    ensures s.selectedObjects == {"a", "b"} && s.selectedObject == Some(box) && s.transformMode == Translate
    ensures FreshId(s.objects, "g")
  {
    var s2 := TwoAdded(box, sphere);
    assert s2.objects[0] in s2.objects;
    assert "a" in Ids(s2.objects);
    var t := ToggleObjectSelection(s2, "a");
    assert t.selectedObjects == {"a"};
    ToggleObjectSelection(t, "b")
  }

  /** With no group in the list yet, the group created from the two selected
      objects is called "Group 1". */
  lemma TwoSelectedGroupName(box: Renderable, sphere: Renderable)
    requires box.kind == Mesh && sphere.kind == Mesh
    ensures var s := TwoSelected(box, sphere);
      NextGroupName(Reparented(s.objects, s.selectedObjects, "g")) == "Group 1"
  {
    var s := TwoSelected(box, sphere);
    NextGroupNameReparented(s.objects, s.selectedObjects, "g");
    assert CountGroups(s.objects) == 0;
    NextGroupNameWithoutGroups(s.objects);
  }

  /** Grouping the two selected objects: the group holds both, is named
      "Group 1" and is the only selection. */
  lemma GroupingScenario(box: Renderable, sphere: Renderable, group: Renderable)
    requires box.kind == Mesh && sphere.kind == Mesh && group.kind == Group
    ensures var g := CreateGroup(TwoSelected(box, sphere), group, "g", NextGroupName);
      |g.objects| == 3 &&
      g.objects[0] == Entry("a", box, "Box", true, Some("g")) &&
      g.objects[1] == Entry("b", sphere, "Sphere", true, Some("g")) &&
      g.objects[2] == Entry("g", group, "Group 1", true, None) &&
      g.selectedObjects == {"g"} && g.selectedObject == Some(group)
  {
    var s := TwoSelected(box, sphere);
    var name := NextGroupName(Reparented(s.objects, s.selectedObjects, "g"));
    TwoSelectedGroupName(box, sphere);
    var g := CreateGroup(s, group, "g", NextGroupName);
    assert g == Grouped(s, group, "g", name);
    assert g.objects[0] == Entry("a", box, "Box", true, Some("g"));
    assert g.objects[1] == Entry("b", sphere, "Sphere", true, Some("g"));
  }

  /** Ungrouping that group again: both objects are parentless as before and
      nothing is selected. */
  lemma UngroupingScenario(box: Renderable, sphere: Renderable, group: Renderable)
    requires box.kind == Mesh && sphere.kind == Mesh && group.kind == Group
    ensures var s := TwoSelected(box, sphere);
      Ungroup(CreateGroup(s, group, "g", NextGroupName), "g") == State(s.objects, None, {}, Translate)
  {
    var s := TwoSelected(box, sphere);
    CreateGroupThenUngroupRestores(s, group, "g", NextGroupName);
  }
}
