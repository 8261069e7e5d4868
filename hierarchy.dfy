/** The parent/child hierarchy the object list encodes through parent ids.
    A list is acyclic when its ids can be ranked so that every parent reference
    that names an entry points to a strictly lower rank; then following parent
    references never comes back to where it started. */
module Hierarchy {
  import opened SceneTypes
  import opened EntryLists

  /** `rank` ranks every id of the list, and each entry's parent, when it
      names an entry, ranks strictly below the entry. */
  ghost predicate RankedBy(objects: seq<Entry>, rank: map<Id, nat>)
  {
    (forall e :: e in objects ==> e.id in rank) &&
    (forall e, p :: e in objects && p in objects && e.parentId == Some(p.id) ==> rank[p.id] < rank[e.id])
  }

  /** The parent references of the list form no cycle. */
  ghost predicate Acyclic(objects: seq<Entry>)
  {
    exists rank :: RankedBy(objects, rank)
  }

  /** `c` follows parent references through the list: each entry's parent is the next entry. */
  ghost predicate IsParentChain(objects: seq<Entry>, c: seq<Entry>)
  {
    (forall i :: 0 <= i < |c| ==> c[i] in objects) &&
    (forall i :: 0 < i < |c| ==> c[i - 1].parentId == Some(c[i].id))
  }

  /** Along a chain of parent references the rank strictly falls. */
  lemma {:induction false} ChainRankFalls(objects: seq<Entry>, rank: map<Id, nat>, c: seq<Entry>)
    requires RankedBy(objects, rank) && IsParentChain(objects, c) && |c| >= 2
    ensures rank[c[|c| - 1].id] < rank[c[0].id]
  {
    assert c[0] in objects && c[1] in objects && c[0].parentId == Some(c[1].id);
    if |c| > 2 {
      var rest := c[1..];
      assert forall i :: 0 < i < |rest| ==> rest[i - 1] == c[i] && rest[i] == c[i + 1];
      ChainRankFalls(objects, rank, rest);
    }
  }

  /** In an acyclic list, following parent references one or more steps never
      arrives back at the id it started from. */
  lemma NoParentCycle(objects: seq<Entry>, c: seq<Entry>)
    requires Acyclic(objects) && IsParentChain(objects, c) && |c| >= 2
    ensures c[|c| - 1].id != c[0].id
  {
    var rank :| RankedBy(objects, rank);
    ChainRankFalls(objects, rank, c);
  }

  /** The empty list is acyclic. */
  lemma EmptyAcyclic()
    ensures Acyclic([])
  {
    assert RankedBy([], map[]);
  }

  /** Dropping entries keeps the list acyclic. */
  lemma SubListAcyclic(a: seq<Entry>, b: seq<Entry>)
    requires Acyclic(a)
    requires forall e :: e in b ==> e in a
    ensures Acyclic(b)
  {
    var rank :| RankedBy(a, rank);
    assert RankedBy(b, rank);
  }

  /** Keeping every id in place and every parent reference or clearing it
      keeps the list acyclic. */
  lemma LinksDroppedAcyclic(a: seq<Entry>, b: seq<Entry>)
    requires Acyclic(a) && |a| == |b|
    requires forall i :: 0 <= i < |a| ==> a[i].id == b[i].id && (b[i].parentId == a[i].parentId || b[i].parentId == None)
    ensures Acyclic(b)
  {
    var rank :| RankedBy(a, rank);
    forall e | e in b ensures e.id in rank {
      var i :| 0 <= i < |b| && b[i] == e;
      assert a[i] in a;
    }
    forall e, p | e in b && p in b && e.parentId == Some(p.id) ensures rank[p.id] < rank[e.id] {
      var i :| 0 <= i < |b| && b[i] == e;
      var j :| 0 <= j < |b| && b[j] == p;
      assert a[i] in a && a[j] in a;
    }
    assert RankedBy(b, rank);
  }

  /** Lists that agree on every id and parent reference position by position
      are acyclic together. */
  lemma SameLinksAcyclic(a: seq<Entry>, b: seq<Entry>)
    requires |a| == |b|
    requires forall i :: 0 <= i < |a| ==> a[i].id == b[i].id && a[i].parentId == b[i].parentId
    ensures Acyclic(a) <==> Acyclic(b)
  {
    if Acyclic(a) {
      LinksDroppedAcyclic(a, b);
    }
    if Acyclic(b) {
      LinksDroppedAcyclic(b, a);
    }
  }

  /** Appending an entry under a fresh id that is not its own parent keeps the
      list acyclic, since nothing refers to the new entry; and a list that is
      acyclic with the entry appended was acyclic before. */
  lemma AppendedAcyclic(objects: seq<Entry>, e: Entry)
    requires FreshId(objects, e.id) && e.parentId != Some(e.id)
    ensures Acyclic(objects + [e]) <==> Acyclic(objects)
  {
    var r := objects + [e];
    if Acyclic(objects) {
      var rank :| RankedBy(objects, rank);
      var below := if e.parentId.Some? && e.parentId.value in rank then rank[e.parentId.value] + 1 else 0;
      var extended := rank[e.id := below];
      forall x | x in r ensures x.id in extended {
      }
      forall x, p | x in r && p in r && x.parentId == Some(p.id) ensures extended[p.id] < extended[x.id] {
        if x == e {
          assert p != e && p in objects;
        } else {
          assert x in objects;
          assert p != e;
        }
      }
      assert RankedBy(r, extended);
    }
    if Acyclic(r) {
      SubListAcyclic(r, objects);
    }
  }

  /** Parenting selected entries to a fresh group id and appending the
      parentless group entry keeps the list acyclic: the group ranks lowest. */
  lemma GroupedAcyclic(objects: seq<Entry>, selected: set<Id>, group: Entry)
    requires Acyclic(objects) && FreshId(objects, group.id) && group.parentId == None
    ensures Acyclic(Reparented(objects, selected, group.id) + [group])
  {
    var rank :| RankedBy(objects, rank);
    var shifted := map x | x in rank.Keys + {group.id} :: if x == group.id then 0 else rank[x] + 1;
    GroupedRankedBy(objects, selected, group, rank, shifted);
  }

  /** The ranking of the grouped list: the group first, every old id one higher. */
  lemma GroupedRankedBy(objects: seq<Entry>, selected: set<Id>, group: Entry, rank: map<Id, nat>, shifted: map<Id, nat>)
    requires RankedBy(objects, rank) && FreshId(objects, group.id) && group.parentId == None
    requires shifted.Keys == rank.Keys + {group.id} && shifted[group.id] == 0
    requires forall x :: x in rank && x != group.id ==> shifted[x] == rank[x] + 1
    ensures RankedBy(Reparented(objects, selected, group.id) + [group], shifted)
  {
    var updated := Reparented(objects, selected, group.id);
    var r := updated + [group];
    forall x | x in r ensures x.id in shifted {
      if x != group {
        assert x in updated;
        var i :| 0 <= i < |updated| && updated[i] == x;
        assert objects[i] in objects;
      }
    }
    forall x, p | x in r && p in r && x.parentId == Some(p.id) ensures shifted[p.id] < shifted[x.id] {
      assert x in updated;
      var i :| 0 <= i < |updated| && updated[i] == x;
      ReparentedEdge(objects, selected, group, rank, i, p);
    }
  }

  /** One parent reference of the grouped list: it points at the group, or it
      is a reference of the old list between two old ids. */
  lemma ReparentedEdge(objects: seq<Entry>, selected: set<Id>, group: Entry, rank: map<Id, nat>, i: nat, p: Entry)
    requires RankedBy(objects, rank) && FreshId(objects, group.id)
    requires i < |objects|
    requires p in Reparented(objects, selected, group.id) + [group]
    requires Reparented(objects, selected, group.id)[i].parentId == Some(p.id)
    ensures objects[i].id in rank && objects[i].id != group.id
    ensures p.id == group.id || (p.id in rank && p.id != group.id && rank[p.id] < rank[objects[i].id])
  {
    var updated := Reparented(objects, selected, group.id);
    assert objects[i] in objects;
    if p.id != group.id {
      assert p in updated;
      var j :| 0 <= j < |updated| && updated[j] == p;
      assert objects[j] in objects;
      assert updated[i] == objects[i];
    }
  }
}
