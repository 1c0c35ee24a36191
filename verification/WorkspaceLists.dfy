// Ordered desktop lists per output, as values: what moving, filtering and
// rebuilding do to them, and that they stay a partition.

module WorkspaceLists {
  import opened Prelude
  import opened SessionKeys

  /** Backing desktops are numbered in the order the window system creates them. */
  type DesktopId = nat

  type Lists = map<OutputKey, seq<DesktopId>>

  function At(lists: Lists, key: OutputKey): seq<DesktopId> {
    if key in lists then lists[key] else []
  }

  /** The desktops on some list. */
  function Listed(lists: Lists): set<DesktopId> {
    set key, id | key in lists && id in lists[key] :: id
  }

  /** No desktop occurs twice, on one list or on two. */
  ghost predicate Partition(lists: Lists) {
    && (forall key <- lists :: NoDup(lists[key]))
    && (forall a, b, id | a in lists && b in lists && id in lists[a] && id in lists[b] :: a == b)
  }

  /** The desktop is on exactly the list of that key, once. */
  ghost predicate OnlyOn(lists: Lists, id: DesktopId, key: OutputKey) {
    && key in lists && id in lists[key] && NoDup(lists[key])
    && forall other <- lists | other != key :: id !in lists[other]
  }

  function Without(s: seq<DesktopId>, ids: seq<DesktopId>): seq<DesktopId> {
    Filter(x => x !in ids, s)
  }

  function Only(s: seq<DesktopId>, live: seq<DesktopId>): seq<DesktopId> {
    Filter(x => x in live, s)
  }

  /** Take the first occurrence out, as splice at indexOf does. */
  function RemoveFirst(s: seq<DesktopId>, id: DesktopId): seq<DesktopId> {
    if s == [] then [] else if s[0] == id then s[1..] else [s[0]] + RemoveFirst(s[1..], id)
  }

  lemma WithoutMembers(s: seq<DesktopId>, ids: seq<DesktopId>)
    ensures forall x :: x in Without(s, ids) <==> x in s && x !in ids
    ensures NoDup(s) ==> NoDup(Without(s, ids))
  {
    FilterMembers(x => x !in ids, s);
    if NoDup(s) { FilterNoDup(x => x !in ids, s); }
  }

  lemma OnlyMembers(s: seq<DesktopId>, live: seq<DesktopId>)
    ensures forall x :: x in Only(s, live) <==> x in s && x in live
    ensures NoDup(s) ==> NoDup(Only(s, live))
    ensures (forall x <- s :: x in live) ==> Only(s, live) == s
  {
    FilterMembers(x => x in live, s);
    if NoDup(s) { FilterNoDup(x => x in live, s); }
    if forall x <- s :: x in live { FilterAll(x => x in live, s); }
  }

  lemma WithoutNone(s: seq<DesktopId>, ids: seq<DesktopId>)
    requires forall x <- ids :: x !in s
    ensures Without(s, ids) == s
  {
    FilterAll(x => x !in ids, s);
  }

  lemma WithoutSingle(id: DesktopId, ids: seq<DesktopId>)
    ensures Without([id], ids) == if id in ids then [] else [id]
  {
    var rest := Without([id], ids);
    assert rest != [] ==> rest[0] in rest;
    WithoutMembers([id], ids);
    if id !in ids { WithoutNone([id], ids); }
  }

  /** On a list without duplicates the first occurrence is the only one. */
  lemma {:induction false} RemoveFirstIsWithout(s: seq<DesktopId>, id: DesktopId)
    requires NoDup(s)
    ensures RemoveFirst(s, id) == Without(s, [id])
  {
    if s != [] {
      if s[0] == id {
        assert id !in s[1..];
        WithoutNone(s[1..], [id]);
      } else {
        RemoveFirstIsWithout(s[1..], id);
      }
    }
  }

  lemma {:induction false} FilterTwice<T>(p: T -> bool, q: T -> bool, r: T -> bool, s: seq<T>)
    requires forall x <- s :: r(x) <==> p(x) && q(x)
    ensures Filter(q, Filter(p, s)) == Filter(r, s)
  {
    if s != [] {
      FilterTwice(p, q, r, s[1..]);
      var f := Filter(p, s[1..]);
      if p(s[0]) {
        assert ([s[0]] + f)[1..] == f;
      }
    }
  }

  lemma {:induction false} SameFilter<T>(p: T -> bool, q: T -> bool, s: seq<T>)
    requires forall x <- s :: p(x) <==> q(x)
    ensures Filter(p, s) == Filter(q, s)
  {
    if s != [] { SameFilter(p, q, s[1..]); }
  }

  lemma WithoutMore(s: seq<DesktopId>, ids: seq<DesktopId>, id: DesktopId)
    ensures Without(Without(s, ids), [id]) == Without(s, ids + [id])
  {
    FilterTwice(x => x !in ids, x => x !in [id], x => x !in ids + [id], s);
  }

  /** Remove the desktops wherever they are. */
  function Removed(lists: Lists, ids: seq<DesktopId>): Lists {
    map key | key in lists :: Without(lists[key], ids)
  }

  /** Move the desktops, in order, to the end of one list. */
  function MovedTo(lists: Lists, ids: seq<DesktopId>, dest: OutputKey): Lists {
    Removed(lists, ids)[dest := Without(At(lists, dest), ids) + ids]
  }

  lemma RemovedKeeps(lists: Lists, ids: seq<DesktopId>)
    requires Partition(lists)
    ensures Partition(Removed(lists, ids))
    ensures forall x :: x in Listed(Removed(lists, ids)) <==> x in Listed(lists) && x !in ids
  {
    var after := Removed(lists, ids);
    forall key | key in lists
      ensures NoDup(after[key]) && forall x :: x in after[key] <==> x in lists[key] && x !in ids
    {
      WithoutMembers(lists[key], ids);
    }
    forall x
      ensures x in Listed(after) <==> x in Listed(lists) && x !in ids
    {
      if x in Listed(lists) && x !in ids {
        var key :| key in lists && x in lists[key];
        assert key in after && x in after[key];
      }
    }
  }

  lemma ListedUpdate(lists: Lists, key: OutputKey, s: seq<DesktopId>)
    requires forall x <- At(lists, key) :: x in s
    ensures forall x :: x in Listed(lists[key := s]) <==> x in Listed(lists) || x in s
  {
    var after := lists[key := s];
    forall x
      ensures x in Listed(after) <==> x in Listed(lists) || x in s
    {
      if x in s {
        assert key in after && x in after[key];
      }
      if x in Listed(lists) {
        var k :| k in lists && x in lists[k];
        assert k in after && x in after[k];
      }
    }
  }

  lemma NoDupConcat(a: seq<DesktopId>, b: seq<DesktopId>)
    requires NoDup(a) && NoDup(b) && forall x <- b :: x !in a
    ensures NoDup(a + b)
  {
    forall i, j | 0 <= i < j < |a + b|
      ensures (a + b)[i] != (a + b)[j]
    {
      if i < |a| <= j {
        assert a[i] in a && b[j - |a|] in b;
      }
    }
  }

  /** Append desktops that are on no list to one of them. */
  function Appended(lists: Lists, key: OutputKey, more: seq<DesktopId>): Lists {
    lists[key := At(lists, key) + more]
  }

  lemma AppendedKeeps(lists: Lists, key: OutputKey, more: seq<DesktopId>)
    requires Partition(lists) && NoDup(more) && forall id <- more :: id !in Listed(lists)
    ensures Partition(Appended(lists, key, more))
    ensures forall x :: x in Listed(Appended(lists, key, more)) <==> x in Listed(lists) || x in more
    ensures forall id <- more :: OnlyOn(Appended(lists, key, more), id, key)
  {
    var list := At(lists, key) + more;
    assert forall x <- At(lists, key) :: x in Listed(lists);
    ListedUpdate(lists, key, list);
    AppendedPartition(lists, key, more);
  }

  lemma AppendedPartition(lists: Lists, key: OutputKey, more: seq<DesktopId>)
    requires Partition(lists) && NoDup(more) && forall id <- more :: id !in Listed(lists)
    ensures Partition(Appended(lists, key, more))
    ensures forall id <- more :: OnlyOn(Appended(lists, key, more), id, key)
  {
    var after := Appended(lists, key, more);
    forall a, id | a in lists && id in lists[a]
      ensures id in Listed(lists)
    {
    }
    assert key in lists ==> NoDup(lists[key]) && forall id <- lists[key] :: id in Listed(lists);
    NoDupConcat(At(lists, key), more);
    forall other, id | other in lists && other != key && id in lists[other]
      ensures id !in after[key]
    {
      assert id in Listed(lists);
      assert id !in At(lists, key);
    }
  }

  /** Moving keeps the partition, unlists nothing, and puts each moved desktop on that list only. */
  lemma MovedToKeeps(lists: Lists, ids: seq<DesktopId>, dest: OutputKey)
    requires Partition(lists) && NoDup(ids)
    ensures Partition(MovedTo(lists, ids, dest))
    ensures forall x :: x in Listed(MovedTo(lists, ids, dest)) <==> x in Listed(lists) || x in ids
    ensures forall id <- ids :: OnlyOn(MovedTo(lists, ids, dest), id, dest)
  {
    RemovedKeeps(lists, ids);
    WithoutNone([], ids);
    assert At(Removed(lists, ids), dest) == Without(At(lists, dest), ids);
    AppendedKeeps(Removed(lists, ids), dest, ids);
  }

  /** The other lists lose the moved desktops and keep the order of the rest. */
  lemma MovedToOthers(lists: Lists, ids: seq<DesktopId>, dest: OutputKey, key: OutputKey)
    requires key in lists && key != dest
    ensures forall x :: x in MovedTo(lists, ids, dest)[key] <==> x in lists[key] && x !in ids
    ensures (forall x <- ids :: x !in lists[key]) ==> MovedTo(lists, ids, dest)[key] == lists[key]
  {
    WithoutMembers(lists[key], ids);
    if forall x <- ids :: x !in lists[key] { WithoutNone(lists[key], ids); }
  }

  lemma RemovedNone(lists: Lists)
    ensures Removed(lists, []) == lists
  {
    forall key | key in lists
      ensures Without(lists[key], []) == lists[key]
    {
      WithoutNone(lists[key], []);
    }
  }

  lemma MovedNone(lists: Lists, key: OutputKey)
    requires key in lists
    ensures MovedTo(lists, [], key) == lists
  {
    RemovedNone(lists);
    WithoutNone(lists[key], []);
    assert lists[key] + [] == lists[key];
  }

  /** The lists less what is no longer live. */
  function KeptLive(lists: Lists, live: seq<DesktopId>): Lists {
    map key | key in lists :: Only(lists[key], live)
  }

  lemma KeptLiveKeeps(lists: Lists, live: seq<DesktopId>)
    requires Partition(lists)
    ensures Partition(KeptLive(lists, live))
    ensures forall x :: x in Listed(KeptLive(lists, live)) <==> x in Listed(lists) && x in live
  {
    var after := KeptLive(lists, live);
    forall key | key in lists
      ensures NoDup(after[key]) && forall x :: x in after[key] <==> x in lists[key] && x in live
    {
      OnlyMembers(lists[key], live);
    }
    forall x
      ensures x in Listed(after) <==> x in Listed(lists) && x in live
    {
      if x in Listed(lists) && x in live {
        var key :| key in lists && x in lists[key];
        assert key in after && x in after[key];
      }
    }
  }

  /** The live desktops on no list, in live order. */
  function Unlisted(lists: Lists, live: seq<DesktopId>): seq<DesktopId> {
    Filter(x => x !in Listed(lists), live)
  }

  /** The local mapping after a rebuild: lists of lost outputs stay, dead desktops go, and
      desktops on no list join the primary's. */
  function Rebuilt(lists: Lists, live: seq<DesktopId>, primary: OutputKey): Lists {
    var kept := KeptLive(lists, live);
    Appended(kept, primary, Unlisted(kept, live))
  }

  /** Every live desktop is on exactly one list, and nothing else is listed. */
  ghost predicate Covers(lists: Lists, live: seq<DesktopId>) {
    Partition(lists) && forall x :: x in Listed(lists) <==> x in live
  }

  lemma UnlistedMembers(lists: Lists, live: seq<DesktopId>)
    ensures forall x :: x in Unlisted(lists, live) <==> x in live && x !in Listed(lists)
    ensures NoDup(live) ==> NoDup(Unlisted(lists, live))
  {
    FilterMembers(x => x !in Listed(lists), live);
    if NoDup(live) { FilterNoDup(x => x !in Listed(lists), live); }
  }

  lemma RebuiltCovers(lists: Lists, live: seq<DesktopId>, primary: OutputKey)
    requires Partition(lists) && NoDup(live)
    ensures Covers(Rebuilt(lists, live, primary), live)
    ensures forall key <- lists | key != primary :: Rebuilt(lists, live, primary)[key] == Only(lists[key], live)
    ensures Only(At(lists, primary), live) <= Rebuilt(lists, live, primary)[primary]
  {
    var kept := KeptLive(lists, live);
    KeptLiveKeeps(lists, live);
    UnlistedMembers(kept, live);
    AppendedKeeps(kept, primary, Unlisted(kept, live));
  }

  /** On lists that cover the live desktops a rebuild does nothing. */
  lemma RebuiltIdle(lists: Lists, live: seq<DesktopId>, primary: OutputKey)
    requires Covers(lists, live) && primary in lists
    ensures Rebuilt(lists, live, primary) == lists
  {
    forall key | key in lists
      ensures Only(lists[key], live) == lists[key]
    {
      assert forall x <- lists[key] :: x in Listed(lists);
      OnlyMembers(lists[key], live);
    }
    assert KeptLive(lists, live) == lists;
    var more := Unlisted(lists, live);
    assert more != [] ==> more[0] in more;
    UnlistedMembers(lists, live);
    assert lists[primary] + [] == lists[primary];
  }
}
