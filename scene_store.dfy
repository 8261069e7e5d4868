/** The scene store as the long-lived object the editor holds: four fields that
    each command replaces, and one method per command. Every method keeps the
    store valid. The seven commands that have a transition in module Scene are
    proved to leave the store in the state that transition gives; the other
    three only assign their arguments and state each field's new value. */
module SceneStore {
  import opened SceneTypes
  import opened EntryLists
  import Scene
  import Hierarchy

  /** Gathers the ids removeObject drops by one pass over the list: the id
      itself and the id of every entry whose parent it is. */
  method CollectIdsToRemove(objects: seq<Entry>, id: Id) returns (idsToRemove: set<Id>)
    ensures idsToRemove == Scene.IdsToRemove(objects, id)
  {
    idsToRemove := {id};
    var i := 0;
    while i < |objects|
      invariant 0 <= i <= |objects|
      invariant idsToRemove == {id} + ChildIds(objects[..i], id)
    {
      assert objects[..i + 1] == objects[..i] + [objects[i]];
      ChildIdsSnoc(objects[..i], objects[i], id);
      if objects[i].parentId == Some(id) {
        idsToRemove := idsToRemove + {objects[i].id};
      }
      i := i + 1;
    }
    assert objects[..i] == objects;
  }

  class Store {
    var objects: seq<Entry>
    var selectedObject: Option<Renderable>
    var selectedObjects: set<Id>
    var transformMode: TransformMode

    /** The four fields as one value. */
    function State(): Scene.State
      reads this
    {
      Scene.State(objects, selectedObject, selectedObjects, transformMode)
    }

    ghost predicate Valid()
      reads this
    {
      Scene.Valid(State())
    }

    /** An empty scene, nothing selected, translating. */
    constructor ()
      ensures Valid() && State() == Scene.Initial
    {
      Hierarchy.EmptyAcyclic();
      objects := [];
      selectedObject := None;
      selectedObjects := {};
      transformMode := Translate;
    }

    /** Appends a visible entry for `obj`; `newId` is the fresh id the store draws. */
    method AddObject(obj: Renderable, name: string, parentId: Option<Id>, newId: Id)
      requires Valid() && FreshId(objects, newId) && parentId != Some(newId)
      modifies this
      ensures Valid() && State() == Scene.AddObject(old(State()), obj, name, parentId, newId)
    {
      ghost var before := State();
      objects := objects + [Entry(newId, obj, name, true, parentId)];
      assert State() == Scene.AddObject(before, obj, name, parentId, newId);
    }

    /** Removes the entry and its direct children, and drops them from the selection. */
    method RemoveObject(id: Id)
      requires Valid()
      modifies this
      ensures Valid() && State() == Scene.RemoveObject(old(State()), id)
    {
      ghost var before := State();
      var idsToRemove := CollectIdsToRemove(objects, id);
      var removed := Find(objects, id);
      if removed.Some? && Some(removed.value.obj) == selectedObject {
        selectedObject := None;
      }
      objects := RemoveIds(objects, idsToRemove);
      selectedObjects := selectedObjects - idsToRemove;
      Scene.RemoveObjectValid(before, id);
    }

    /** Makes `obj` the single selection and empties the multi-selection. */
    method SetSelectedObject(obj: Option<Renderable>)
      requires Valid()
      modifies this
      ensures Valid()
      ensures selectedObject == obj && selectedObjects == {}
      ensures objects == old(objects) && transformMode == old(transformMode)
    {
      selectedObject := obj;
      selectedObjects := {};
    }

    /** Adds the id to the multi-selection or takes it out. */
    method ToggleObjectSelection(id: Id)
      requires Valid()
      modifies this
      ensures Valid() && State() == Scene.ToggleObjectSelection(old(State()), id)
    {
      var newSelection := selectedObjects;
      if id in newSelection {
        newSelection := newSelection - {id};
      } else {
        newSelection := newSelection + {id};
      }
      if |newSelection| == 1 {
        var selected := Find(objects, id);
        if selected.Some? {
          selectedObject := Some(selected.value.obj);
        }
      }
      selectedObjects := newSelection;
    }

    /** Empties the multi-selection only. */
    method ClearSelection()
      requires Valid()
      modifies this
      ensures Valid()
      ensures selectedObjects == {}
      ensures objects == old(objects) && selectedObject == old(selectedObject) && transformMode == old(transformMode)
    {
      selectedObjects := {};
    }

    method SetTransformMode(mode: TransformMode)
      requires Valid()
      modifies this
      ensures Valid()
      ensures transformMode == mode
      ensures objects == old(objects) && selectedObject == old(selectedObject) && selectedObjects == old(selectedObjects)
    {
      transformMode := mode;
    }

    /** Shows or hides the entry; hiding the selected renderable deselects it. */
    method ToggleVisibility(id: Id)
      requires Valid()
      modifies this
      ensures Valid() && State() == Scene.ToggleVisibility(old(State()), id)
    {
      ghost var before := State();
      var updated := VisibilityFlipped(objects, id);
      var toggled := Find(updated, id);
      if toggled.Some? && !toggled.value.visible && Some(toggled.value.obj) == selectedObject {
        selectedObject := None;
      }
      objects := updated;
      assert State() == Scene.ToggleVisibility(before, id);
      Scene.ToggleVisibilityIds(before, id);
    }

    method UpdateObjectName(id: Id, name: string)
      requires Valid()
      modifies this
      ensures Valid() && State() == Scene.UpdateObjectName(old(State()), id, name)
    {
      ghost var before := State();
      objects := Renamed(objects, id, name);
      assert State() == Scene.UpdateObjectName(before, id, name);
    }

    /** Groups the selected entries under a new group node `group`, whose fresh
        id is `groupId`; does nothing unless two or more ids are selected. */
    method CreateGroup(group: Renderable, groupId: Id)
      requires Valid() && group.kind == Group && FreshId(objects, groupId)
      modifies this
      ensures Valid() && State() == Scene.CreateGroup(old(State()), group, groupId, Scene.NextGroupName)
    {
      ghost var before := State();
      if |selectedObjects| < 2 {
        return;
      }
      var updated := Reparented(objects, selectedObjects, groupId);
      var name := Scene.NextGroupName(updated);
      objects := updated + [Entry(groupId, group, name, true, None)];
      selectedObjects := {groupId};
      selectedObject := Some(group);
      assert State() == Scene.Grouped(before, group, groupId, name);
      Scene.GroupedIds(before, group, groupId, name);
    }

    /** Dissolves the group: its entry goes, its children lose their parent,
        and the selection is cleared; does nothing for an unknown id. */
    method Ungroup(groupId: Id)
      requires Valid()
      modifies this
      ensures Valid() && State() == Scene.Ungroup(old(State()), groupId)
    {
      ghost var before := State();
      var groupObj := Find(objects, groupId);
      if groupObj.None? {
        return;
      }
      objects := ParentCleared(RemoveIds(objects, {groupId}), groupId);
      selectedObjects := {};
      selectedObject := None;
      Scene.UngroupValid(before, groupId);
    }
  }
}
