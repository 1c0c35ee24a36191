// The global-unique mapping: ordered lists per output and the inverse map from
// each desktop to its output, kept in step.

module GlobalMapping {
  import opened Prelude
  import opened SessionKeys
  import opened WorkspaceLists
  import opened Lifecycle

  datatype Mapping = Mapping(lists: Lists, inverse: map<DesktopId, OutputKey>)

  /** A listed desktop points back at its list, and a live desktop that points at an output is
      on that output's list: on live desktops the inverse map agrees exactly with the lists. */
  ghost predicate Consistent(g: Mapping, live: seq<DesktopId>) {
    && (forall key <- g.lists :: NoDup(g.lists[key]))
    && (forall key, id | key in g.lists && id in g.lists[key] :: id in g.inverse && g.inverse[id] == key)
    && (forall id <- g.inverse | id in live :: g.inverse[id] in g.lists && id in g.lists[g.inverse[id]])
  }

  lemma ConsistentPartition(g: Mapping, live: seq<DesktopId>)
    requires Consistent(g, live)
    ensures Partition(g.lists)
    ensures forall id <- live :: id in Listed(g.lists) <==> id in g.inverse
    ensures forall id <- Listed(g.lists) :: id in g.inverse
  {
    forall a, b, id | a in g.lists && b in g.lists && id in g.lists[a] && id in g.lists[b]
      ensures a == b
    {
      assert g.inverse[id] == a;
    }
    forall id | id in live && id in g.inverse
      ensures id in Listed(g.lists)
    {
      assert g.inverse[id] in g.lists && id in g.lists[g.inverse[id]];
    }
  }

  function Assigned(g: Mapping, id: DesktopId, key: OutputKey): Mapping {
    var prior := if id in g.inverse && g.inverse[id] != key && g.inverse[id] in g.lists
                 then g.lists[g.inverse[id] := RemoveFirst(g.lists[g.inverse[id]], id)] else g.lists;
    var list := At(prior, key);
    Mapping(prior[key := if id in list then list else list + [id]], g.inverse[id := key])
  }

  function Unassigned(g: Mapping, id: DesktopId): Mapping {
    if id !in g.inverse then g
    else
      var key := g.inverse[id];
      Mapping(if key in g.lists then g.lists[key := RemoveFirst(g.lists[key], id)] else g.lists,
              g.inverse - {id})
  }

  function AssignedAll(g: Mapping, ids: seq<DesktopId>, key: OutputKey): Mapping {
    if ids == [] then g else Assigned(AssignedAll(g, ids[..|ids| - 1], key), ids[|ids| - 1], key)
  }

  /** Assigning moves the desktop to the end of that list, unless it is there already. */
  lemma AssignedIsMove(g: Mapping, live: seq<DesktopId>, id: DesktopId, key: OutputKey)
    requires Consistent(g, live)
    ensures Assigned(g, id, key).lists == MovedTo(g.lists, Without([id], At(g.lists, key)), key)
    ensures id in At(g.lists, key) ==> Assigned(g, id, key) == g
  {
    WithoutSingle(id, At(g.lists, key));
    if id in At(g.lists, key) {
      MovedNone(g.lists, key);
    } else {
      AssignedNew(g, live, id, key);
    }
  }

  lemma AssignedNew(g: Mapping, live: seq<DesktopId>, id: DesktopId, key: OutputKey)
    requires Consistent(g, live) && id !in At(g.lists, key)
    ensures Assigned(g, id, key).lists == MovedTo(g.lists, [id], key)
  {
    var a := Assigned(g, id, key).lists;
    WithoutNone(At(g.lists, key), [id]);
    forall k | k in g.lists && k != key
      ensures a[k] == Without(g.lists[k], [id])
    {
      if id in g.inverse && g.inverse[id] == k {
        RemoveFirstIsWithout(g.lists[k], id);
      } else {
        WithoutNone(g.lists[k], [id]);
      }
    }
  }

  lemma AssignedKeeps(g: Mapping, live: seq<DesktopId>, id: DesktopId, key: OutputKey)
    requires Consistent(g, live)
    ensures Consistent(Assigned(g, id, key), live)
    ensures OnlyOn(Assigned(g, id, key).lists, id, key)
  {
    var h := Assigned(g, id, key);
    ConsistentPartition(g, live);
    AssignedIsMove(g, live, id, key);
    if id !in At(g.lists, key) {
      WithoutSingle(id, At(g.lists, key));
      MovedToKeeps(g.lists, [id], key);
      WithoutNone(At(g.lists, key), [id]);
      forall k | k in g.lists && k != key
        ensures forall x :: x in h.lists[k] <==> x in g.lists[k] && x != id
      {
        MovedToOthers(g.lists, [id], key, k);
      }
    }
  }

  /** A desktop assigned where it is and another assigned elsewhere. */
  lemma TradeOnto(a: OutputKey, b: OutputKey)
    requires a != b
    ensures var g := Mapping(map[b := [0, 1, 2]], map[0 := b, 1 := b, 2 := b]);
            var h := Assigned(Assigned(g, 1, b), 2, a);
            At(h.lists, a) == [2] && h.lists.Keys == {a, b}
  {
  }

  function Pointing(ids: seq<DesktopId>, key: OutputKey): map<DesktopId, OutputKey> {
    map id | id in ids :: key
  }

  lemma PointOneMore(inverse: map<DesktopId, OutputKey>, ids: seq<DesktopId>, id: DesktopId, key: OutputKey)
    ensures (inverse + Pointing(ids, key))[id := key] == inverse + Pointing(ids + [id], key)
  {
  }

  lemma {:induction false} AssignedAllInverse(g: Mapping, ids: seq<DesktopId>, key: OutputKey)
    ensures AssignedAll(g, ids, key).inverse == g.inverse + Pointing(ids, key)
  {
    if ids != [] {
      AssignedAllInverse(g, ids[..|ids| - 1], key);
      PointOneMore(g.inverse, ids[..|ids| - 1], ids[|ids| - 1], key);
      assert ids == ids[..|ids| - 1] + [ids[|ids| - 1]];
    }
  }

  /** Assigning several keeps the maps in step. */
  lemma {:induction false} AssignedAllKeeps(g: Mapping, live: seq<DesktopId>, ids: seq<DesktopId>, key: OutputKey)
    requires Consistent(g, live)
    ensures Consistent(AssignedAll(g, ids, key), live)
  {
    if ids != [] {
      var h := AssignedAll(g, ids[..|ids| - 1], key);
      AssignedAllKeeps(g, live, ids[..|ids| - 1], key);
      AssignedKeeps(h, live, ids[|ids| - 1], key);
    }
  }

  /** Assigning several in order appends, in order, those that are not there already. */
  lemma {:induction false} AssignedAllIsMove(g: Mapping, live: seq<DesktopId>, ids: seq<DesktopId>, key: OutputKey)
    requires Consistent(g, live) && NoDup(ids) && ids != []
    ensures AssignedAll(g, ids, key).lists == MovedTo(g.lists, Without(ids, At(g.lists, key)), key)
  {
    var front, id := ids[..|ids| - 1], ids[|ids| - 1];
    var there := At(g.lists, key);
    assert ids == front + [id];
    if front == [] {
      assert AssignedAll(g, front, key) == g && ids == [id];
      AssignedIsMove(g, live, id, key);
    } else {
      var h := AssignedAll(g, front, key);
      AssignedAllIsMove(g, live, front, key);
      AssignedAllKeeps(g, live, front, key);
      AssignedIsMove(h, live, id, key);
      FilterConcat(x => x !in there, front, [id]);
      WithoutMembers(front, there);
      MoveOneMore(g.lists, Without(front, there), id, key);
    }
  }

  /** Moving one more desktop to the same list; one that is there stays where it is. */
  lemma MoveOneMore(lists: Lists, ids: seq<DesktopId>, id: DesktopId, key: OutputKey)
    requires id !in ids && forall x <- ids :: x !in At(lists, key)
    ensures var after := MovedTo(lists, ids, key);
            MovedTo(after, Without([id], At(after, key)), key) == MovedTo(lists, ids + Without([id], At(lists, key)), key)
  {
    var there := At(lists, key);
    var after := MovedTo(lists, ids, key);
    WithoutNone(there, ids);
    WithoutSingle(id, there);
    WithoutSingle(id, there + ids);
    if id in there {
      MovedNone(after, key);
      assert ids + [] == ids;
    } else {
      MoveInTurn(lists, ids, id, key);
    }
  }

  /** Moving desktops one after the other is moving them together. */
  lemma MoveInTurn(lists: Lists, ids: seq<DesktopId>, id: DesktopId, key: OutputKey)
    requires id !in ids && id !in At(lists, key) && forall x <- ids :: x !in At(lists, key)
    ensures MovedTo(MovedTo(lists, ids, key), [id], key) == MovedTo(lists, ids + [id], key)
  {
    var there := At(lists, key);
    var one, both := MovedTo(MovedTo(lists, ids, key), [id], key), MovedTo(lists, ids + [id], key);
    WithoutNone(there, ids);
    WithoutNone(there + ids, [id]);
    WithoutNone(there, ids + [id]);
    assert one[key] == there + ids + [id] == there + (ids + [id]) == both[key];
    forall k | k in lists && k != key
      ensures one[k] == both[k]
    {
      WithoutMore(lists[k], ids, id);
    }
    assert one.Keys == both.Keys;
  }

  /** Taking a desktop out of the mapping. */
  lemma UnassignedKeeps(g: Mapping, live: seq<DesktopId>, id: DesktopId)
    requires Consistent(g, live)
    ensures Consistent(Unassigned(g, id), live)
    ensures Unassigned(g, id).lists == Removed(g.lists, [id])
    ensures Unassigned(g, id).inverse == g.inverse - {id}
  {
    hide Unassigned;
    UnassignedLists(g, live, id);
    forall k | k in g.lists
      ensures NoDup(Without(g.lists[k], [id])) && forall x :: x in Without(g.lists[k], [id]) <==> x in g.lists[k] && x != id
    {
      WithoutMembers(g.lists[k], [id]);
    }
  }

  lemma UnassignedLists(g: Mapping, live: seq<DesktopId>, id: DesktopId)
    requires Consistent(g, live)
    ensures Unassigned(g, id).lists == Removed(g.lists, [id])
    ensures Unassigned(g, id).inverse == g.inverse - {id}
  {
    forall k | k in g.lists
      ensures Unassigned(g, id).lists[k] == Without(g.lists[k], [id])
    {
      if id in g.inverse && g.inverse[id] == k {
        RemoveFirstIsWithout(g.lists[k], id);
      } else {
        WithoutNone(g.lists[k], [id]);
      }
    }
  }

  // ---- rebuild ----

  /** The lists and the inverse map with what is no longer live taken out. */
  function Pruned(g: Mapping, live: seq<DesktopId>, held: set<OutputKey>): Mapping {
    Mapping(map key | key in g.lists && (key in held || Only(g.lists[key], live) != []) :: Only(g.lists[key], live),
            map id | id in g.inverse && id in live :: g.inverse[id])
  }

  /** The live desktops that belong to no output yet. */
  function Homeless(g: Mapping, live: seq<DesktopId>): seq<DesktopId> {
    Filter(x => x !in g.inverse, live)
  }

  function GlobalRebuilt(g: Mapping, live: seq<DesktopId>, held: set<OutputKey>, primary: OutputKey): Mapping {
    AssignedAll(Pruned(g, live, held), Homeless(Pruned(g, live, held), live), primary)
  }

  lemma PrunedKeeps(g: Mapping, live: seq<DesktopId>, held: set<OutputKey>)
    requires Consistent(g, live)
    ensures Consistent(Pruned(g, live, held), live)
    ensures Homeless(Pruned(g, live, held), live) == Unlisted(Pruned(g, live, held).lists, live)
  {
    var h := Pruned(g, live, held);
    forall key | key in g.lists
      ensures NoDup(Only(g.lists[key], live)) && forall x :: x in Only(g.lists[key], live) <==> x in g.lists[key] && x in live
    {
      OnlyMembers(g.lists[key], live);
    }
    forall id | id in h.inverse && id in live
      ensures h.inverse[id] in h.lists && id in h.lists[h.inverse[id]]
    {
      assert id in Only(g.lists[g.inverse[id]], live);
    }
    ConsistentPartition(h, live);
    SameFilter(x => x !in h.inverse, x => x !in Listed(h.lists), live);
  }

  /** Moving desktops that are on no list is appending them. */
  lemma MoveUnlisted(lists: Lists, ids: seq<DesktopId>, key: OutputKey)
    requires forall id <- ids :: id !in Listed(lists)
    ensures MovedTo(lists, Without(ids, At(lists, key)), key) == Appended(lists, key, ids)
  {
    assert forall x <- At(lists, key) :: x in Listed(lists);
    WithoutNone(ids, At(lists, key));
    WithoutNone(At(lists, key), ids);
    forall k | k in lists
      ensures Without(lists[k], ids) == lists[k]
    {
      assert forall x <- lists[k] :: x in Listed(lists);
      WithoutNone(lists[k], ids);
    }
  }

  /** A rebuild changes the lists as the lifecycle pass says. */
  lemma GlobalRebuiltLists(g: Mapping, live: seq<DesktopId>, held: set<OutputKey>, primary: OutputKey)
    requires Consistent(g, live) && NoDup(live)
    ensures GlobalRebuilt(g, live, held, primary).lists == RebuiltGlobal(g.lists, live, held, primary)
  {
    var p := Pruned(g, live, held);
    var more := Homeless(p, live);
    PrunedKeeps(g, live, held);
    UnlistedMembers(p.lists, live);
    if more != [] {
      AssignedAllIsMove(p, live, more, primary);
      MoveUnlisted(p.lists, more, primary);
    }
  }

  /** A rebuild keeps the maps in step and gives every live desktop exactly one list. */
  lemma GlobalRebuiltCovers(g: Mapping, live: seq<DesktopId>, held: set<OutputKey>, primary: OutputKey)
    requires Consistent(g, live) && NoDup(live)
    ensures var h := GlobalRebuilt(g, live, held, primary);
            && Consistent(h, live) && Covers(h.lists, live) && (forall id :: id in h.inverse <==> id in live)
  {
    var p := Pruned(g, live, held);
    GlobalRebuiltLists(g, live, held, primary);
    PrunedKeeps(g, live, held);
    FilterMembers(x => x !in p.inverse, live);
    AssignedAllKeeps(p, live, Homeless(p, live), primary);
    AssignedAllInverse(p, Homeless(p, live), primary);
    ConsistentPartition(g, live);
    RebuiltGlobalCovers(g.lists, live, held, primary);
  }
}
