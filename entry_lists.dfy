/** The list transforms the scene store builds its commands from: lookup by id,
    filtering by a set of ids, and the per-entry maps that rename an entry, flip
    its visibility, or set and clear parent references. */
module EntryLists {
  import opened SceneTypes

  /** The ids present in an object list. */
  function Ids(objects: seq<Entry>): set<Id>
  {
    set e | e in objects :: e.id
  }

  /** No two entries of the list share an id. */
  predicate UniqueIds(objects: seq<Entry>)
  {
    forall i, j :: 0 <= i < j < |objects| ==> objects[i].id != objects[j].id
  }

  /** An id as `crypto.randomUUID()` hands it out: no entry has it as its id,
      and no entry refers to it as its parent. */
  predicate FreshId(objects: seq<Entry>, id: Id)
  {
    forall e :: e in objects ==> e.id != id && e.parentId != Some(id)
  }

  /** The ids of the entries whose parent reference is `parent`. */
  function ChildIds(objects: seq<Entry>, parent: Id): set<Id>
  {
    set e | e in objects && e.parentId == Some(parent) :: e.id
  }

  /** Entry `i` of `b` is entry `i` of `a` with at most its name, visibility or
      parent reference changed: same length, same ids, same renderables. */
  predicate Aligned(a: seq<Entry>, b: seq<Entry>)
  {
    |a| == |b| && forall i :: 0 <= i < |a| ==> a[i].id == b[i].id && a[i].obj == b[i].obj
  }

  lemma IdsCons(objects: seq<Entry>)
    requires objects != []
    ensures Ids(objects) == {objects[0].id} + Ids(objects[1..])
  {
    assert objects == [objects[0]] + objects[1..];
  }

  lemma {:induction false} UniqueIdsCons(objects: seq<Entry>)
    requires objects != []
    ensures UniqueIds(objects) <==> UniqueIds(objects[1..]) && objects[0].id !in Ids(objects[1..])
  {
    var rest := objects[1..];
    if UniqueIds(objects) {
      forall e | e in rest ensures e.id != objects[0].id {
        var k :| 0 <= k < |rest| && rest[k] == e;
        assert objects[k + 1] == e;
      }
    }
    if UniqueIds(rest) && objects[0].id !in Ids(rest) {
      forall i, j | 0 <= i < j < |objects| ensures objects[i].id != objects[j].id {
        if i > 0 {
          assert objects[i] == rest[i - 1] && objects[j] == rest[j - 1];
        } else {
          assert objects[j] == rest[j - 1];
          assert objects[j] in rest;
        }
      }
    }
  }

  /** Appending keeps ids apart exactly when the new id is not present yet. */
  lemma UniqueIdsSnoc(objects: seq<Entry>, e: Entry)
    ensures Ids(objects + [e]) == Ids(objects) + {e.id}
    ensures UniqueIds(objects + [e]) <==> UniqueIds(objects) && e.id !in Ids(objects)
  {
    var r := objects + [e];
    assert r[|objects|] == e;
    forall x | x in Ids(r) ensures x in Ids(objects) + {e.id} {
      var d :| d in r && d.id == x;
      var k :| 0 <= k < |r| && r[k] == d;
      if k < |objects| {
        assert objects[k] in objects;
      }
    }
    forall x | x in Ids(objects) ensures x in Ids(r) {
      var d :| d in objects && d.id == x;
      assert d in r;
    }
    if UniqueIds(objects) && e.id !in Ids(objects) {
      forall i, j | 0 <= i < j < |r| ensures r[i].id != r[j].id {
        if j == |objects| {
          assert objects[i] in objects;
        } else {
          assert r[i] == objects[i] && r[j] == objects[j];
        }
      }
    }
    if UniqueIds(r) {
      forall d | d in objects ensures d.id != e.id {
        var k :| 0 <= k < |objects| && objects[k] == d;
        assert r[k] == d;
      }
      forall i, j | 0 <= i < j < |objects| ensures objects[i].id != objects[j].id {
        assert r[i] == objects[i] && r[j] == objects[j];
      }
    }
  }

  /** Two entries of a list without duplicate ids that carry the same id are the same entry. */
  lemma SameIdSameEntry(objects: seq<Entry>, a: Entry, b: Entry)
    requires UniqueIds(objects) && a in objects && b in objects && a.id == b.id
    ensures a == b
  {
    var i :| 0 <= i < |objects| && objects[i] == a;
    var j :| 0 <= j < |objects| && objects[j] == b;
    assert i == j;
  }

  /** Lookup by id as the store does it: the first entry carrying the id, if any. */
  function Find(objects: seq<Entry>, id: Id): (r: Option<Entry>)
    ensures r.None? <==> id !in Ids(objects)
    ensures r.Some? ==> r.value in objects && r.value.id == id
  {
    if objects == [] then None
    else
      IdsCons(objects);
      if objects[0].id == id then Some(objects[0]) else Find(objects[1..], id)
  }

  /** Find returns the entry at the first index carrying the id. */
  lemma {:induction false} FindIsFirst(objects: seq<Entry>, id: Id, i: nat)
    requires i < |objects| && objects[i].id == id
    requires forall j :: 0 <= j < i ==> objects[j].id != id
    ensures Find(objects, id) == Some(objects[i])
  {
    if i > 0 {
      assert objects[0].id != id;
      FindIsFirst(objects[1..], id, i - 1);
    }
  }

  /** Without duplicate ids, Find returns the one entry carrying the id. */
  lemma FindUnique(objects: seq<Entry>, e: Entry)
    requires UniqueIds(objects) && e in objects
    ensures Find(objects, e.id) == Some(e)
  {
    SameIdSameEntry(objects, Find(objects, e.id).value, e);
  }

  /** The list without the entries whose id is in `ids`, the rest kept in order. */
  function RemoveIds(objects: seq<Entry>, ids: set<Id>): (r: seq<Entry>)
    ensures forall e :: e in r <==> e in objects && e.id !in ids
    ensures |r| <= |objects|
  {
    if objects == [] then []
    else if objects[0].id in ids then RemoveIds(objects[1..], ids)
    else [objects[0]] + RemoveIds(objects[1..], ids)
  }

  /** Filtering keeps the order of the entries it keeps: it distributes over concatenation. */
  lemma {:induction false} RemoveIdsAppend(a: seq<Entry>, b: seq<Entry>, ids: set<Id>)
    ensures RemoveIds(a + b, ids) == RemoveIds(a, ids) + RemoveIds(b, ids)
  {
    if a == [] {
      assert a + b == b;
    } else {
      assert (a + b)[1..] == a[1..] + b;
      RemoveIdsAppend(a[1..], b, ids);
    }
  }

  /** Filtering an entry appended at the end keeps it at the end exactly
      when its id is not filtered: the kept entries stay in list order. */
  lemma RemoveIdsSnoc(objects: seq<Entry>, e: Entry, ids: set<Id>)
    ensures RemoveIds(objects + [e], ids) == RemoveIds(objects, ids) + (if e.id in ids then [] else [e])
  {
    RemoveIdsAppend(objects, [e], ids);
    assert [e][1..] == [];
  }

  /** Filtering out ids that no entry carries changes nothing. */
  lemma {:induction false} RemoveIdsNothingToRemove(objects: seq<Entry>, ids: set<Id>)
    requires forall e :: e in objects ==> e.id !in ids
    ensures RemoveIds(objects, ids) == objects
  {
    if objects != [] {
      assert objects[0] in objects;
      RemoveIdsNothingToRemove(objects[1..], ids);
    }
  }

  /** Filtering keeps ids apart. */
  lemma {:induction false} RemoveIdsUnique(objects: seq<Entry>, ids: set<Id>)
    requires UniqueIds(objects)
    ensures UniqueIds(RemoveIds(objects, ids))
  {
    if objects != [] {
      UniqueIdsCons(objects);
      RemoveIdsUnique(objects[1..], ids);
      RemoveIdsIds(objects[1..], ids);
      IdsCons(objects);
      if objects[0].id !in ids {
        UniqueIdsCons(RemoveIds(objects, ids));
      }
    }
  }

  /** The ids left after filtering are the old ones minus the filtered ones. */
  lemma RemoveIdsIds(objects: seq<Entry>, ids: set<Id>)
    ensures Ids(RemoveIds(objects, ids)) == Ids(objects) - ids
  {
    var r := RemoveIds(objects, ids);
    forall x | x in Ids(objects) - ids ensures x in Ids(r) {
      var e :| e in objects && e.id == x;
      assert e in r;
    }
  }

  /** Appending an entry adds its id to its parent's children. */
  lemma ChildIdsSnoc(objects: seq<Entry>, e: Entry, parent: Id)
    ensures ChildIds(objects + [e], parent) ==
      ChildIds(objects, parent) + (if e.parentId == Some(parent) then {e.id} else {})
  {
    var r := objects + [e];
    assert e in r;
    forall x | x in ChildIds(r, parent)
      ensures x in ChildIds(objects, parent) + (if e.parentId == Some(parent) then {e.id} else {})
    {
      var d :| d in r && d.parentId == Some(parent) && d.id == x;
      var k :| 0 <= k < |r| && r[k] == d;
      if k < |objects| {
        assert objects[k] in objects;
      }
    }
    forall x | x in ChildIds(objects, parent) ensures x in ChildIds(r, parent) {
      var d :| d in objects && d.parentId == Some(parent) && d.id == x;
      assert d in r;
    }
  }

  /** Without duplicate ids, filtering out one present id shortens the list by exactly one. */
  lemma {:induction false} RemoveOneIdLength(objects: seq<Entry>, id: Id)
    requires UniqueIds(objects) && id in Ids(objects)
    ensures |RemoveIds(objects, {id})| == |objects| - 1
  {
    UniqueIdsCons(objects);
    IdsCons(objects);
    if objects[0].id == id {
      RemoveIdsNothingToRemove(objects[1..], {id});
    } else {
      RemoveOneIdLength(objects[1..], id);
    }
  }

  /** Every entry carrying `id` takes the new name; all else stays. */
  function Renamed(objects: seq<Entry>, id: Id, name: string): (r: seq<Entry>)
    ensures Aligned(objects, r)
    ensures forall i :: 0 <= i < |r| ==>
      r[i] == if objects[i].id == id then objects[i].(name := name) else objects[i]
  {
    if objects == [] then []
    else
      var e := objects[0];
      [if e.id == id then e.(name := name) else e] + Renamed(objects[1..], id, name)
  }

  /** Every entry carrying `id` has its visibility negated; all else stays. */
  function VisibilityFlipped(objects: seq<Entry>, id: Id): (r: seq<Entry>)
    ensures Aligned(objects, r)
    ensures forall i :: 0 <= i < |r| ==>
      r[i] == if objects[i].id == id then objects[i].(visible := !objects[i].visible) else objects[i]
  {
    if objects == [] then []
    else
      var e := objects[0];
      [if e.id == id then e.(visible := !e.visible) else e] + VisibilityFlipped(objects[1..], id)
  }

  /** The entries whose id is in `selected` get `groupId` as their parent. */
  function Reparented(objects: seq<Entry>, selected: set<Id>, groupId: Id): (r: seq<Entry>)
    ensures Aligned(objects, r)
    ensures forall i :: 0 <= i < |r| ==>
      r[i] == if objects[i].id in selected then objects[i].(parentId := Some(groupId)) else objects[i]
  {
    if objects == [] then []
    else
      var e := objects[0];
      [if e.id in selected then e.(parentId := Some(groupId)) else e] + Reparented(objects[1..], selected, groupId)
  }

  /** The entries whose parent is `groupId` lose their parent reference. */
  function ParentCleared(objects: seq<Entry>, groupId: Id): (r: seq<Entry>)
    ensures Aligned(objects, r)
    ensures forall i :: 0 <= i < |r| ==>
      r[i] == if objects[i].parentId == Some(groupId) then objects[i].(parentId := None) else objects[i]
  {
    if objects == [] then []
    else
      var e := objects[0];
      [if e.parentId == Some(groupId) then e.(parentId := None) else e] + ParentCleared(objects[1..], groupId)
  }

  /** How many entries hold a group renderable. */
  function CountGroups(objects: seq<Entry>): (n: nat)
    ensures n <= |objects|
    ensures n == 0 <==> forall e :: e in objects ==> e.obj.kind != Group
  {
    if objects == [] then 0
    else (if objects[0].obj.kind == Group then 1 else 0) + CountGroups(objects[1..])
  }

  /** Appending one entry adds one to the count exactly when it is a group. */
  lemma {:induction false} CountGroupsAppend(objects: seq<Entry>, e: Entry)
    ensures CountGroups(objects + [e]) == CountGroups(objects) + (if e.obj.kind == Group then 1 else 0)
  {
    if objects != [] {
      assert (objects + [e])[1..] == objects[1..] + [e];
      CountGroupsAppend(objects[1..], e);
    }
  }

  /** Filtering never adds groups, and filtering out a group lowers the count. */
  lemma {:induction false} CountGroupsRemoveIds(objects: seq<Entry>, ids: set<Id>, g: Entry)
    requires g in objects && g.id in ids && g.obj.kind == Group
    ensures CountGroups(RemoveIds(objects, ids)) < CountGroups(objects)
  {
    if objects[0] == g {
      CountGroupsRemoveIdsAtMost(objects[1..], ids);
    } else {
      assert g in objects[1..];
      CountGroupsRemoveIds(objects[1..], ids, g);
    }
  }

  lemma {:induction false} CountGroupsRemoveIdsAtMost(objects: seq<Entry>, ids: set<Id>)
    ensures CountGroups(RemoveIds(objects, ids)) <= CountGroups(objects)
  {
    if objects != [] {
      CountGroupsRemoveIdsAtMost(objects[1..], ids);
    }
  }

  /** Aligned lists have the same ids. */
  lemma AlignedIds(a: seq<Entry>, b: seq<Entry>)
    requires Aligned(a, b)
    ensures Ids(a) == Ids(b)
    ensures UniqueIds(a) <==> UniqueIds(b)
  {
    forall x | x in Ids(a) ensures x in Ids(b) {
      var e :| e in a && e.id == x;
      var i :| 0 <= i < |a| && a[i] == e;
      assert b[i] in b;
    }
    forall x | x in Ids(b) ensures x in Ids(a) {
      var e :| e in b && e.id == x;
      var i :| 0 <= i < |b| && b[i] == e;
      assert a[i] in a;
    }
  }

  /** Aligned lists hold the same renderables, so the same number of groups. */
  lemma {:induction false} AlignedCountGroups(a: seq<Entry>, b: seq<Entry>)
    requires Aligned(a, b)
    ensures CountGroups(a) == CountGroups(b)
  {
    if a != [] {
      assert a[0].obj == b[0].obj;
      AlignedCountGroups(a[1..], b[1..]);
    }
  }

  /** Looking up the flipped id finds the same entry as before, with its visibility flipped. */
  lemma {:induction false} FindVisibilityFlipped(objects: seq<Entry>, id: Id)
    ensures Find(VisibilityFlipped(objects, id), id).Some? == Find(objects, id).Some?
    ensures Find(objects, id).Some? ==>
      Find(VisibilityFlipped(objects, id), id).value == Find(objects, id).value.(visible := !Find(objects, id).value.visible)
  {
    if objects != [] && objects[0].id != id {
      FindVisibilityFlipped(objects[1..], id);
    }
  }

  /** A reparented list's children of a fresh group id are exactly the selected entries. */
  lemma ReparentedChildren(objects: seq<Entry>, selected: set<Id>, groupId: Id)
    requires FreshId(objects, groupId)
    ensures ChildIds(Reparented(objects, selected, groupId), groupId) == selected * Ids(objects)
  {
    var r := Reparented(objects, selected, groupId);
    forall x | x in ChildIds(r, groupId) ensures x in selected * Ids(objects) {
      var e :| e in r && e.parentId == Some(groupId) && e.id == x;
      var i :| 0 <= i < |r| && r[i] == e;
      assert objects[i] in objects;
    }
    forall x | x in selected * Ids(objects) ensures x in ChildIds(r, groupId) {
      var e :| e in objects && e.id == x;
      var i :| 0 <= i < |objects| && objects[i] == e;
      assert r[i] in r;
    }
  }

  /** Clearing the references to a fresh group id that was just set takes
      every selected entry's parent away and leaves the others as they were. */
  lemma ParentClearedReparented(objects: seq<Entry>, selected: set<Id>, groupId: Id)
    requires FreshId(objects, groupId)
    ensures var r := ParentCleared(Reparented(objects, selected, groupId), groupId);
      |r| == |objects| &&
      forall i :: 0 <= i < |objects| ==>
        r[i] == if objects[i].id in selected then objects[i].(parentId := None) else objects[i]
  {
    var updated := Reparented(objects, selected, groupId);
    var r := ParentCleared(updated, groupId);
    forall i | 0 <= i < |objects|
      ensures r[i] == if objects[i].id in selected then objects[i].(parentId := None) else objects[i]
    {
      assert objects[i] in objects;
    }
  }

  /** Every entry reappears after clearing, without a reference to the group. */
  lemma ParentClearedMembers(objects: seq<Entry>, groupId: Id)
    ensures forall e :: e in objects ==>
      (if e.parentId == Some(groupId) then e.(parentId := None) else e) in ParentCleared(objects, groupId)
  {
    var r := ParentCleared(objects, groupId);
    forall e | e in objects
      ensures (if e.parentId == Some(groupId) then e.(parentId := None) else e) in r
    {
      var i :| 0 <= i < |objects| && objects[i] == e;
      assert r[i] in r;
    }
  }

  /** After clearing, no entry refers to the group any more. */
  lemma ParentClearedNoChildren(objects: seq<Entry>, groupId: Id)
    ensures ChildIds(ParentCleared(objects, groupId), groupId) == {}
  {
    var r := ParentCleared(objects, groupId);
    forall e | e in r ensures e.parentId != Some(groupId) {
      var i :| 0 <= i < |r| && r[i] == e;
    }
  }
}
