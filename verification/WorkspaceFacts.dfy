// What single steps of the workspace adapter do to the mapping, the records and
// the history, as facts about values.

module WorkspaceFacts {
  import opened Prelude
  import opened SessionKeys
  import opened WorkspaceLists
  import opened Lifecycle
  import opened GlobalMapping
  import opened NativeWorkspace
  import opened Displacement
  import opened DisplacementPass
  import opened Migration
  import ViewHistory
  import Ring

  /** The distinct keys of the outputs, in output order. */
  function KeysOf(slots: seq<Slot>, byOutput: map<Output, OutputKey>, outputs: seq<Output>): seq<OutputKey> {
    if outputs == [] then []
    else
      var keys := KeysOf(slots, byOutput, outputs[..|outputs| - 1]);
      var key := KeyOf(slots, byOutput, outputs[|outputs| - 1]);
      if key.None? || key.value in keys then keys else keys + [key.value]
  }

  lemma {:induction false} KeysOfNoDup(slots: seq<Slot>, byOutput: map<Output, OutputKey>, outputs: seq<Output>)
    ensures NoDup(KeysOf(slots, byOutput, outputs))
  {
    if outputs != [] { KeysOfNoDup(slots, byOutput, outputs[..|outputs| - 1]); }
  }

  /** Both mappings against the live desktops: the local lists hold no desktop twice, the global
      lists and inverse map agree, and every id met so far is older than the next new desktop. */
  ghost predicate MapsHold(local: Lists, g: Mapping, live: seq<DesktopId>, next: DesktopId) {
    && Partition(local) && Consistent(g, live) && NoDup(live)
    && (forall id <- Listed(local) :: id < next) && (forall id <- g.inverse :: id < next) && (forall id <- live :: id < next)
  }

  /** The desktops may come and go: the maps hold on as long as no id comes back. */
  lemma HoldOn(local: Lists, g: Mapping, live: seq<DesktopId>, next: DesktopId, live': seq<DesktopId>, next': DesktopId)
    requires MapsHold(local, g, live, next) && NoDup(live') && next <= next'
    requires forall id <- live' :: id < next' && (id in live || id >= next)
    ensures MapsHold(local, g, live', next')
  {
  }

  lemma HoldNothing(live: seq<DesktopId>, next: DesktopId)
    requires NoDup(live) && forall id <- live :: id < next
    ensures MapsHold(map[], Mapping(map[], map[]), live, next)
  {
  }

  lemma HomelessStep(g: Mapping, live: seq<DesktopId>, i: nat)
    requires i < |live| && NoDup(live)
    ensures Homeless(g, live[..i + 1]) == if live[i] in g.inverse then Homeless(g, live[..i]) else Homeless(g, live[..i]) + [live[i]]
    ensures live[i] !in Homeless(g, live[..i])
  {
    FilterConcat(x => x !in g.inverse, live[..i], [live[i]]);
    FilterMembers(x => x !in g.inverse, live[..i]);
    assert live[..i + 1] == live[..i] + [live[i]];
    assert [live[i]][1..] == [];
    assert Homeless(g, live[..i]) + [] == Homeless(g, live[..i]);
  }

  /** One step of the adoption loop. */
  lemma AdoptStep(g: Mapping, live: seq<DesktopId>, i: nat, key: OutputKey)
    requires i < |live| && NoDup(live)
    ensures var h := AssignedAll(g, Homeless(g, live[..i]), key);
            && (live[i] in h.inverse <==> live[i] in g.inverse)
            && AssignedAll(g, Homeless(g, live[..i + 1]), key) == (if live[i] in h.inverse then h else Assigned(h, live[i], key))
    ensures SetOf(Homeless(g, live[..i + 1])) == SetOf(Homeless(g, live[..i])) + (if live[i] in g.inverse then {} else {live[i]})
  {
    var before := Homeless(g, live[..i]);
    HomelessStep(g, live, i);
    AssignedAllInverse(g, before, key);
    assert (before + [live[i]])[..|before|] == before;
  }

  lemma HoldAssigned(local: Lists, g: Mapping, live: seq<DesktopId>, next: DesktopId, ids: seq<DesktopId>, key: OutputKey)
    requires MapsHold(local, g, live, next) && forall id <- ids :: id < next
    ensures MapsHold(local, AssignedAll(g, ids, key), live, next)
  {
    AssignedAllKeeps(g, live, ids, key);
    AssignedAllInverse(g, ids, key);
  }

  lemma HoldPruned(local: Lists, g: Mapping, live: seq<DesktopId>, next: DesktopId, held: set<OutputKey>)
    requires MapsHold(local, g, live, next)
    ensures MapsHold(local, Pruned(g, live, held), live, next)
  {
    PrunedKeeps(g, live, held);
  }

  /** The desktops without an output are those on no list. */
  lemma HomelessIsUnlisted(g: Mapping, live: seq<DesktopId>, held: set<OutputKey>)
    requires Consistent(g, live)
    ensures Homeless(Pruned(g, live, held), live) == Unlisted(KeptLive(g.lists, live), live)
  {
    ConsistentPartition(g, live);
    KeptLiveKeeps(g.lists, live);
    SameFilter(x => x !in Pruned(g, live, held).inverse, x => x !in Listed(KeptLive(g.lists, live)), live);
  }

  lemma SharedCreated(live: seq<DesktopId>, id: DesktopId, managed: set<DesktopId>)
    ensures (forall x <- live :: x in managed) ==> managed + {id} + SetOf(live + [id]) == managed + {id}
    ensures (map[SHARED := live])[SHARED := At(map[SHARED := live], SHARED) + [id]] == map[SHARED := live + [id]]
  {
  }

  lemma SharedDropped(live: seq<DesktopId>, managed: set<DesktopId>, id: DesktopId)
    requires forall x <- live :: x in managed
    ensures managed - {id} + SetOf(Without(live, [id])) == managed - {id}
    ensures Removed(map[SHARED := live], [id]) == map[SHARED := Without(live, [id])]
  {
    WithoutMembers(live, [id]);
  }

  lemma HoldRebuilt(local: Lists, g: Mapping, live: seq<DesktopId>, next: DesktopId, primary: OutputKey)
    requires MapsHold(local, g, live, next)
    ensures MapsHold(Rebuilt(local, live, primary), g, live, next) && Covers(Rebuilt(local, live, primary), live) && NoDup(live)
  {
    RebuiltCovers(local, live, primary);
  }

  lemma HoldRemoved(local: Lists, g: Mapping, live: seq<DesktopId>, next: DesktopId, id: DesktopId, after: Lists)
    requires MapsHold(local, g, live, next) && after == map key | key in local :: RemoveFirst(local[key], id)
    ensures after == Removed(local, [id]) && MapsHold(after, g, live, next)
  {
    forall key | key in local
      ensures RemoveFirst(local[key], id) == Without(local[key], [id])
    {
      RemoveFirstIsWithout(local[key], id);
    }
    RemovedKeeps(local, [id]);
  }

  lemma HoldUnassigned(local: Lists, g: Mapping, live: seq<DesktopId>, next: DesktopId, id: DesktopId)
    requires MapsHold(local, g, live, next)
    ensures MapsHold(local, Unassigned(g, id), live, next) && Unassigned(g, id).lists == Removed(g.lists, [id])
  {
    UnassignedKeeps(g, live, id);
  }

  // ---- what cleanup may do, whatever fails ----

  /** Desktops go only when no guard holds them, at most `room` new ones come, and in the per-output
      modes a desktop that stays stays on its list and only connected outputs gain a list. */
  ghost predicate Tended(mode: Mode, c: Context, room: nat, was: Domain, now: Domain) {
    && was.next <= now.next && |now.live| <= |was.live| + room
    && (forall id <- was.live :: id < was.next)
    && (forall id <- now.live :: id in was.live || id >= was.next)
    && (forall id <- was.live | !Retirable(c, id) :: id in now.live)
    && (mode != Shared ==> ListsTended(c, was, now))
  }

  /** Only connected outputs gain a list, and what stays of a list stays in order at its front. */
  ghost predicate ListsTended(c: Context, was: Domain, now: Domain) {
    && (forall key <- now.lists :: key in was.lists || key in c.keys)
    && (forall key, id | id in At(was.lists, key) :: id < was.next)
    && (forall key :: OrderKept(At(was.lists, key), At(now.lists, key), now.live))
  }

  /** Of the live desktops the second list has those of the first, in order, and then perhaps more. */
  ghost predicate OrderKept(was: seq<DesktopId>, now: seq<DesktopId>, live: seq<DesktopId>) {
    Only(was, live) <= Only(now, live)
  }

  lemma OrderKeptMembers(was: seq<DesktopId>, now: seq<DesktopId>, live: seq<DesktopId>)
    requires OrderKept(was, now, live)
    ensures forall id <- was | id in live :: id in now
  {
    OnlyMembers(was, live);
    OnlyMembers(now, live);
    assert forall id <- Only(was, live) :: id in Only(now, live);
  }

  lemma OrderKeptMore(list: seq<DesktopId>, more: seq<DesktopId>, live: seq<DesktopId>)
    ensures OrderKept(list, list + more, live)
  {
    FilterConcat(x => x in live, list, more);
  }

  /** What was kept stays kept while desktops go. */
  lemma OrderKeptOn(one: seq<DesktopId>, two: seq<DesktopId>, three: seq<DesktopId>, before: seq<DesktopId>, now: seq<DesktopId>)
    requires OrderKept(one, two, before) && OrderKept(two, three, now)
    requires forall id | (id in one || id in two) && id in now :: id in before
    ensures OrderKept(one, three, now)
  {
    var a, b := Only(one, before), Only(two, before);
    assert b == a + b[|a|..];
    FilterConcat(x => x in now, a, b[|a|..]);
    FilterTwice(x => x in before, x => x in now, x => x in now, one);
    FilterTwice(x => x in before, x => x in now, x => x in now, two);
  }

  lemma TendedOn(mode: Mode, c: Context, a: nat, b: nat, one: Domain, two: Domain, three: Domain)
    requires Tended(mode, c, a, one, two) && Tended(mode, c, b, two, three)
    ensures Tended(mode, c, a + b, one, three)
  {
    hide OrderKept;
    assert forall id <- three.live | id in one.live :: id in two.live;
    if mode != Shared {
      forall key
        ensures OrderKept(At(one.lists, key), At(three.lists, key), three.live)
      {
        assert OrderKept(At(one.lists, key), At(two.lists, key), two.live) && OrderKept(At(two.lists, key), At(three.lists, key), three.live);
        OrderKeptOn(At(one.lists, key), At(two.lists, key), At(three.lists, key), two.live, three.live);
      }
    }
  }

  /** What is held stays, where it is and in order. */
  lemma TendedKeeps(mode: Mode, c: Context, room: nat, was: Domain, now: Domain, key: OutputKey)
    requires Tended(mode, c, room, was, now) && mode != Shared
    ensures |now.live| <= |was.live| + room && forall k <- now.lists :: k in was.lists || k in c.keys
    ensures forall id <- was.live | !Retirable(c, id) :: id in now.live && (id in At(was.lists, key) ==> id in At(now.lists, key))
    ensures forall id <- At(was.lists, key) | id in now.live :: id in At(now.lists, key) && id < was.next
    ensures was.next <= now.next && forall id <- now.live :: id in was.live || id >= was.next
    ensures OrderKept(At(was.lists, key), At(now.lists, key), now.live)
  {
    OrderKeptMembers(At(was.lists, key), At(now.lists, key), now.live);
  }

  lemma TendedMore(mode: Mode, c: Context, a: nat, b: nat, was: Domain, now: Domain)
    requires Tended(mode, c, a, was, now) && a <= b
    ensures Tended(mode, c, b, was, now)
  {
  }

  /** The domain has the lists of its mode, and they hold. */
  ghost predicate Drawn(mode: Mode, d: Domain, local: Lists, g: Mapping) {
    && MapsHold(local, g, d.live, d.next)
    && (mode == PerOutputLocal ==> d.lists == local) && (mode == GlobalUnique ==> d.lists == g.lists)
  }

  lemma DrawnBelow(mode: Mode, d: Domain, local: Lists, g: Mapping)
    requires Drawn(mode, d, local, g) && mode != Shared
    ensures forall key, id | id in At(d.lists, key) :: id < d.next
  {
    forall key, id | id in At(d.lists, key)
      ensures id < d.next
    {
      if mode == PerOutputLocal {
        assert key in local && id in local[key] && id in Listed(local);
      } else {
        assert key in g.lists && id in g.lists[key] && id in g.inverse;
      }
    }
  }

  lemma TendedSame(mode: Mode, c: Context, was: Domain, now: Domain, local: Lists, g: Mapping)
    requires Drawn(mode, was, local, g) && now.live == was.live && now.next == was.next
    requires mode != Shared ==> now.lists == was.lists
    ensures Tended(mode, c, 0, was, now)
  {
    if mode != Shared { DrawnBelow(mode, was, local, g); }
  }

  /** One guarded removal, which may have been reported as failed. */
  lemma TendedRemoved(mode: Mode, c: Context, was: Domain, now: Domain, id: DesktopId, local: Lists, g: Mapping)
    requires Drawn(mode, was, local, g) && now.next == was.next && Retirable(c, id)
    requires now.live == was.live || now.live == Without(was.live, [id])
    requires mode != Shared ==> now.lists == was.lists || (now.lists == Removed(was.lists, [id]) && now.live == Without(was.live, [id]))
    ensures Tended(mode, c, 0, was, now)
  {
    WithoutMembers(was.live, [id]);
    FilterMembers(x => x !in [id], was.live);
    if mode != Shared {
      DrawnBelow(mode, was, local, g);
      forall key
        ensures OrderKept(At(was.lists, key), At(now.lists, key), now.live)
      {
        if now.lists != was.lists {
          WithoutNone([], [id]);
          FilterTwice(x => x !in [id], x => x in now.live, x => x in now.live, At(was.lists, key));
        }
      }
    }
  }

  lemma StillReadable(live: seq<DesktopId>, id: DesktopId, local: Lists, g: Mapping, next: DesktopId)
    requires MapsHold(local, g, live, next) && MIN_DESKTOPS < |live| <= MAX_DESKTOPS
    ensures 0 < |Without(live, [id])| <= MAX_DESKTOPS
  {
    WithoutOneLength(live, id);
  }

  lemma DroppedShared(c: Context, d: Domain, primary: OutputKey, id: DesktopId)
    requires Settled(Shared, c, d, primary)
    ensures var live := Without(d.live, [id]);
            Dropped(d, id) == Domain(live, map[SHARED := live], d.managed - {id} + SetOf(live), d.next)
  {
    SharedDropped(d.live, d.managed, id);
  }

  /** The desktops after a creation, which may have been reported as failed. */
  predicate OneAtMost(live: seq<DesktopId>, next: DesktopId, now: seq<DesktopId>) {
    now == live || now == live + [next]
  }

  /** One desktop more at most, at the end of a connected output's list. */
  lemma TendedGrown(mode: Mode, c: Context, was: Domain, now: Domain, key: OutputKey, local: Lists, g: Mapping)
    requires Drawn(mode, was, local, g) && was.next <= now.next && OneAtMost(was.live, was.next, now.live)
    requires mode != Shared ==> key in c.keys && (now.lists == was.lists || now.lists == Appended(was.lists, key, [was.next]))
    ensures Tended(mode, c, 1, was, now)
  {
    if mode != Shared {
      DrawnBelow(mode, was, local, g);
      OrderKeptMore(At(was.lists, key), [was.next], now.live);
    }
  }

  /** A rebuild takes no live desktop off its list. */
  lemma TendedRebuilt(mode: Mode, c: Context, was: Domain, now: Domain, held: set<OutputKey>, primary: Option<OutputKey>, local: Lists, g: Mapping)
    requires Drawn(mode, was, local, g) && now.live == was.live && now.next == was.next
    requires mode != Shared ==> Refreshed(mode, was.lists, was.live, held, primary, now.lists)
    requires primary.Some? && mode != Shared && now.lists != was.lists ==> primary.value in c.keys
    ensures Tended(mode, c, 0, was, now)
  {
    if mode != Shared {
      DrawnBelow(mode, was, local, g);
      if now.lists != was.lists {
        forall key
          ensures OrderKept(At(was.lists, key), At(now.lists, key), was.live)
        {
          RenewedKeepsOrder(mode, was.lists, was.live, held, primary.value, key);
        }
      }
    }
  }

  lemma RenewedKeepsOrder(mode: Mode, lists: Lists, live: seq<DesktopId>, held: set<OutputKey>, primary: OutputKey, key: OutputKey)
    ensures OrderKept(At(lists, key), At(Renewed(mode, lists, live, held, primary), key), live)
  {
    var list, now := At(lists, key), At(Renewed(mode, lists, live, held, primary), key);
    var kept := Only(list, live);
    FilterTwice(x => x in live, x => x in live, x => x in live, list);
    assert Only([], live) == [];
    assert kept <= now;
    FilterConcat(x => x in live, kept, now[|kept|..]);
    assert now == kept + now[|kept|..];
  }

  /** The lists as they were, or rebuilt. */
  ghost predicate Refreshed(mode: Mode, was: Lists, live: seq<DesktopId>, held: set<OutputKey>, primary: Option<OutputKey>, now: Lists) {
    now == was || (primary.Some? && now == Renewed(mode, was, live, held, primary.value))
  }

  /** The rebuilt lists of a per-output mode. */
  function Renewed(mode: Mode, lists: Lists, live: seq<DesktopId>, held: set<OutputKey>, primary: OutputKey): Lists {
    if mode == GlobalUnique then RebuiltGlobal(lists, live, held, primary) else Rebuilt(lists, live, primary)
  }

  /** On lists that cover the live desktops a rebuild changes no list. */
  lemma RefreshedIdle(mode: Mode, was: Lists, live: seq<DesktopId>, held: set<OutputKey>, primary: Option<OutputKey>, now: Lists)
    requires Covers(was, live) && Refreshed(mode, was, live, held, primary, now)
    ensures forall key :: At(now, key) == At(was, key)
    ensures forall key :: Only(At(now, key), live) == At(was, key)
  {
    KeptLiveIdle(was, live);
    forall key
      ensures At(now, key) == At(was, key) && Only(At(now, key), live) == At(was, key)
    {
      assert forall x <- At(was, key) :: x in Listed(was);
      OnlyMembers(At(was, key), live);
      if now != was {
        RenewedIdle(mode, was, live, held, primary.value, key);
      }
    }
  }

  lemma RenewedIdle(mode: Mode, was: Lists, live: seq<DesktopId>, held: set<OutputKey>, primary: OutputKey, key: OutputKey)
    requires Covers(was, live) && KeptLive(was, live) == was && Unlisted(was, live) == []
    ensures At(Renewed(mode, was, live, held, primary), key) == At(was, key)
  {
    assert key in was ==> Only(was[key], live) == KeptLive(was, live)[key];
    if mode == GlobalUnique {
      var kept := map k | k in was && (k in held || Only(was[k], live) != []) :: Only(was[k], live);
      assert forall x | x in live :: x in Listed(kept) by {
        forall x | x in live
          ensures x in Listed(kept)
        {
          var k :| k in was && x in was[k];
          assert was[k] == KeptLive(was, live)[k] == Only(was[k], live);
          assert k in kept && x in kept[k];
        }
      }
      NoneUnlisted(kept, live);
    } else {
      assert At(was, primary) + [] == At(was, primary);
    }
  }

  lemma NoneUnlisted(lists: Lists, live: seq<DesktopId>)
    requires forall x | x in live :: x in Listed(lists)
    ensures Unlisted(lists, live) == []
  {
    var more := Unlisted(lists, live);
    assert more != [] ==> more[0] in more;
    UnlistedMembers(lists, live);
  }

  /** A list's turn has come to the i-th desktop and the desktops are readable. */
  ghost predicate Turn(mode: Mode, c: Context, primary: OutputKey, start: Domain, key: OutputKey, ordered: seq<DesktopId>, i: nat,
                       removed: seq<DesktopId>, d: Domain) {
    && ordered == At(start.lists, key) && i <= |ordered| && 0 < |start.live| <= MAX_DESKTOPS && |d.live| > 0
    && Progress(mode, c, primary, start, key, i, removed, d)
  }

  lemma TurnStep(mode: Mode, c: Context, primary: OutputKey, start: Domain, key: OutputKey, ordered: seq<DesktopId>, i: nat,
                 removed: seq<DesktopId>, d: Domain)
    requires i < |ordered| && Turn(mode, c, primary, start, key, ordered, i, removed, d)
    ensures Settled(mode, c, d, primary) && 0 < |d.live| <= MAX_DESKTOPS && key in d.lists && (mode == Shared ==> key == SHARED && d.lists[key] == d.live)
    ensures var id, trailing := ordered[i], Trailing(c, ordered);
            var gone := Some(id) != trailing && Removable(c, d, id, |d.lists[key]|);
            Turn(mode, c, primary, start, key, ordered, i + 1, if gone then removed + [id] else removed, Attempted(c, d, key, id, trailing))
  {
    assert ordered[i] in ordered[i..];
    ProgressStep(mode, c, primary, start, key, i, removed, d);
  }

  lemma TurnStart(mode: Mode, c: Context, primary: OutputKey, start: Domain, key: OutputKey, ordered: seq<DesktopId>)
    requires Settled(mode, c, start, primary) && key in Kept(mode, c) && ordered == At(start.lists, key) && 0 < |start.live| <= MAX_DESKTOPS
    ensures Turn(mode, c, primary, start, key, ordered, 0, [], start)
  {
    ProgressStart(mode, c, primary, start, key);
  }

  /** A pass that fits has room for its lists. */
  lemma FitsMeans(mode: Mode, c: Context, d: Domain, primary: OutputKey)
    requires Fits(mode, c, d, primary)
    ensures RoomFor(c, Rebuild(mode, c, d, primary), Kept(mode, c))
  {
  }

  lemma TurnEnd(mode: Mode, c: Context, primary: OutputKey, start: Domain, key: OutputKey, ordered: seq<DesktopId>,
                removed: seq<DesktopId>, d: Domain)
    requires Turn(mode, c, primary, start, key, ordered, |ordered|, removed, d)
    ensures WithTrailing(c, start, key) == if Trailing(c, Without(ordered, removed)).Some? then d else Created(d, key)
    ensures Settled(mode, c, d, primary) && 0 < |d.live| <= MAX_DESKTOPS && (mode == Shared ==> key == SHARED)
  {
    ProgressEnd(mode, c, primary, start, key, removed, d);
  }

  /** The lists before the i-th have had their turn. */
  ghost predicate Visit(mode: Mode, c: Context, primary: OutputKey, start: Domain, keys: seq<OutputKey>, i: nat, d: Domain) {
    && i <= |keys| && NoDup(keys) && (forall key <- keys :: key in Kept(mode, c)) && d.live != []
    && Settled(mode, c, start, primary) && Settled(mode, c, d, primary) && RoomFor(c, d, keys[i..])
    && Enforced(c, d, keys[i..]) == Enforced(c, start, keys)
    && (forall key <- keys[i..] :: At(d.lists, key) == At(start.lists, key))
  }

  lemma VisitStart(mode: Mode, c: Context, primary: OutputKey, start: Domain, keys: seq<OutputKey>)
    requires Settled(mode, c, start, primary) && start.live != [] && keys == Kept(mode, c) && NoDup(keys) && RoomFor(c, start, keys)
    ensures Visit(mode, c, primary, start, keys, 0, start)
  {
    assert keys[0..] == keys;
  }

  lemma VisitStep(mode: Mode, c: Context, primary: OutputKey, start: Domain, keys: seq<OutputKey>, i: nat, d: Domain)
    requires i < |keys| && Visit(mode, c, primary, start, keys, i, d)
    ensures Settled(mode, c, d, primary) && 0 < |d.live| <= MAX_DESKTOPS && |WithTrailing(c, d, keys[i]).live| <= MAX_DESKTOPS
    ensures keys[i] in Kept(mode, c)
    ensures Only(At(d.lists, keys[i]), start.live) == At(d.lists, keys[i])
    ensures mode == Shared ==> At(d.lists, keys[i]) == start.live
    ensures Visit(mode, c, primary, start, keys, i + 1, WithTrailing(c, d, keys[i]))
  {
    var key := keys[i];
    var e := WithTrailing(c, d, key);
    assert key in keys[i..] && keys[i..][1..] == keys[i + 1..] && keys[i..][0] == key;
    WithTrailingEnds(mode, c, d, primary, key);
    EndsEmptyLive(mode, c, e, primary, key);
    assert forall x <- At(start.lists, key) :: x in Listed(start.lists);
    OnlyMembers(At(start.lists, key), start.live);
    forall k | k in keys[i + 1..]
      ensures At(e.lists, k) == At(start.lists, k)
    {
      assert k in keys[i..] && k != key;
    }
    assert RoomFor(c, e, keys[i + 1..]);
  }

  lemma EndsEmptyLive(mode: Mode, c: Context, d: Domain, primary: OutputKey, key: OutputKey)
    requires Settled(mode, c, d, primary) && EndsEmpty(c, d, key)
    ensures d.live != []
  {
    var list := At(d.lists, key);
    var id := list[|list| - 1];
    assert key in d.lists && id in d.lists[key] && id in Listed(d.lists);
  }

  lemma VisitEnd(mode: Mode, c: Context, primary: OutputKey, start: Domain, keys: seq<OutputKey>, d: Domain)
    requires Visit(mode, c, primary, start, keys, |keys|, d)
    ensures d == Enforced(c, start, keys) && Covers(d.lists, d.live)
  {
    assert keys[|keys|..] == [];
  }

  lemma StartableFromMaps(mode: Mode, c: Context, d: Domain, local: Lists, g: Mapping)
    requires MapsHold(local, g, d.live, d.next) && forall id <- c.occupied :: id < d.next
    requires mode == PerOutputLocal ==> d.lists == local
    requires mode == GlobalUnique ==> d.lists == g.lists
    ensures Startable(mode, c, d)
  {
    ConsistentPartition(g, d.live);
  }

  function SeenIn(slots: seq<Slot>, byOutput: map<Output, OutputKey>, views: map<Output, DesktopId>, outputs: seq<Output>): seq<(OutputKey, DesktopId)> {
    if outputs == [] then []
    else
      var front := SeenIn(slots, byOutput, views, outputs[..|outputs| - 1]);
      var output := outputs[|outputs| - 1];
      var key := KeyOf(slots, byOutput, output);
      if key.Some? && output in views then front + [(key.value, views[output])] else front
  }

  lemma SeenNone(slots: seq<Slot>, byOutput: map<Output, OutputKey>, views: map<Output, DesktopId>, outputs: seq<Output>, h: ViewHistory.History)
    ensures SeenIn(slots, byOutput, views, outputs[..0]) == [] && Latest([]) == map[] && ViewHistory.ObservedAll(h, []) == h
  {
  }

  lemma SeenNext(slots: seq<Slot>, byOutput: map<Output, OutputKey>, views: map<Output, DesktopId>, outputs: seq<Output>, i: nat)
    requires i < |outputs|
    ensures var key, front := KeyOf(slots, byOutput, outputs[i]), SeenIn(slots, byOutput, views, outputs[..i]);
            SeenIn(slots, byOutput, views, outputs[..i + 1]) ==
              if key.Some? && outputs[i] in views then front + [(key.value, views[outputs[i]])] else front
  {
    assert outputs[..i + 1][..i] == outputs[..i];
  }

  lemma LatestNext(seen: seq<(OutputKey, DesktopId)>, key: OutputKey, view: DesktopId)
    ensures Latest(seen + [(key, view)]) == Latest(seen)[key := view]
  {
    assert (seen + [(key, view)])[..|seen|] == seen;
  }

  lemma ObserveNext(h: ViewHistory.History, seen: seq<(OutputKey, DesktopId)>, key: OutputKey, view: DesktopId)
    ensures ViewHistory.ObservedAll(h, seen + [(key, view)]) == ViewHistory.Observed(ViewHistory.ObservedAll(h, seen), key, view)
  {
    assert (seen + [(key, view)])[..|seen|] == seen;
  }

  lemma AssignNext(g: Mapping, ids: seq<DesktopId>, id: DesktopId, key: OutputKey)
    ensures AssignedAll(g, ids + [id], key) == Assigned(AssignedAll(g, ids, key), id, key)
  {
    assert (ids + [id])[..|ids|] == ids;
  }

  lemma MovedNothing(lists: Lists, dest: OutputKey)
    ensures MovedTo(lists, [], dest) == lists[dest := At(lists, dest)]
  {
    RemovedNone(lists);
    WithoutNone(At(lists, dest), []);
    assert At(lists, dest) + [] == At(lists, dest);
  }

  /** One more displaced desktop is put back unless it is there. */
  lemma EnsureOneMore(start: Lists, ids: seq<DesktopId>, i: nat, dest: OutputKey)
    requires i < |ids| && NoDup(ids)
    ensures var there := At(start, dest);
            var now := MovedTo(start, Without(ids[..i], there), dest);
            MovedTo(start, Without(ids[..i + 1], there), dest) == if ids[i] in At(now, dest) then now else MovedTo(now, [ids[i]], dest)
  {
    var there := At(start, dest);
    var before := Without(ids[..i], there);
    assert ids[..i + 1] == ids[..i] + [ids[i]];
    FilterConcat(x => x !in there, ids[..i], [ids[i]]);
    WithoutMembers(ids[..i], there);
    MoveOneMore(start, before, ids[i], dest);
    WithoutSingle(ids[i], At(MovedTo(start, before, dest), dest));
    MovedNone(MovedTo(start, before, dest), dest);
  }

  lemma AtRemoved(lists: Lists, ids: seq<DesktopId>, dest: OutputKey)
    ensures At(Removed(lists, ids), dest) == Without(At(lists, dest), ids)
    ensures forall id <- ids :: id !in At(Removed(lists, ids), dest)
  {
    WithoutNone([], ids);
    WithoutMembers(At(lists, dest), ids);
  }

  /** Displacement carries mapped live desktops along: none is dropped from the mapping, and only
      lists of connected outputs gain desktops. */
  ghost predicate Carried(mode: Mode, local: Lists, g: Mapping, local': Lists, g': Mapping, live: seq<DesktopId>, keys: seq<OutputKey>) {
    && (mode == PerOutputLocal ==> forall id <- live :: id in Listed(local) ==> id in Listed(local'))
    && (forall id <- g.inverse :: id in g'.inverse)
    && (forall key | key !in keys :: forall id <- At(local', key) :: id in At(local, key))
    && (forall id | Hosted(mode, local, g, id, keys) :: Hosted(mode, local', g', id, keys))
  }

  /** The desktop belongs to one of the connected outputs. */
  ghost predicate Hosted(mode: Mode, local: Lists, g: Mapping, id: DesktopId, keys: seq<OutputKey>) {
    if mode == GlobalUnique then id in g.inverse && g.inverse[id] in keys else exists key <- keys :: id in At(local, key)
  }

  lemma CarriedOn(mode: Mode, l0: Lists, g0: Mapping, l1: Lists, g1: Mapping, l2: Lists, g2: Mapping, live: seq<DesktopId>, keys: seq<OutputKey>)
    requires Carried(mode, l0, g0, l1, g1, live, keys) && Carried(mode, l1, g1, l2, g2, live, keys)
    ensures Carried(mode, l0, g0, l2, g2, live, keys)
  {
  }

  lemma EnsuredGlobally(g: Mapping, live: seq<DesktopId>, ids: seq<DesktopId>, dest: OutputKey)
    requires Consistent(g, live) && NoDup(ids)
    ensures AssignedAll(g, ids, dest).lists == Ensured(GlobalUnique, g.lists, ids, dest)
  {
    if ids != [] { AssignedAllIsMove(g, live, ids, dest); }
  }

  lemma CarriedSame(mode: Mode, local: Lists, g: Mapping, local': Lists, g': Mapping, live: seq<DesktopId>, keys: seq<OutputKey>)
    requires forall key :: At(local', key) == At(local, key)
    requires forall id <- g.inverse :: id in g'.inverse && (g'.inverse[id] == g.inverse[id] || g'.inverse[id] in keys)
    ensures Carried(mode, local, g, local', g', live, keys)
  {
    forall id | id in Listed(local)
      ensures id in Listed(local')
    {
      var key :| key in local && id in local[key];
      assert id in At(local', key) && key in local';
    }
  }

  lemma CarriedMove(mode: Mode, local: Lists, g: Mapping, ids: seq<DesktopId>, dest: OutputKey, live: seq<DesktopId>, keys: seq<OutputKey>)
    requires Partition(local) && NoDup(ids) && dest in keys
    ensures Carried(mode, local, g, MovedTo(local, ids, dest), g, live, keys)
  {
    MovedToKeeps(local, ids, dest);
    forall key | key !in keys
      ensures forall id <- At(MovedTo(local, ids, dest), key) :: id in At(local, key)
    {
      if key in local {
        MovedToOthers(local, ids, dest, key);
      }
    }
    forall id | mode != GlobalUnique && Hosted(mode, local, g, id, keys)
      ensures Hosted(mode, MovedTo(local, ids, dest), g, id, keys)
    {
      StaysHosted(local, ids, dest, keys, id);
    }
  }

  /** A move to a connected output takes no desktop off the connected outputs. */
  lemma StaysHosted(local: Lists, ids: seq<DesktopId>, dest: OutputKey, keys: seq<OutputKey>, id: DesktopId)
    requires Partition(local) && NoDup(ids) && dest in keys && exists key <- keys :: id in At(local, key)
    ensures exists key <- keys :: id in At(MovedTo(local, ids, dest), key)
  {
    var after := MovedTo(local, ids, dest);
    var key :| key in keys && id in At(local, key);
    if id in ids {
      MovedToKeeps(local, ids, dest);
      assert id in At(after, dest);
    } else {
      WithoutMembers(local[key], ids);
      assert id in At(after, key);
    }
  }

  lemma CarriedEnsure(mode: Mode, local: Lists, g: Mapping, ids: seq<DesktopId>, dest: OutputKey, live: seq<DesktopId>, keys: seq<OutputKey>)
    requires Partition(local) && NoDup(ids) && dest in keys
    ensures Carried(mode, local, g, MovedTo(local, Without(ids, At(local, dest)), dest), g, live, keys)
  {
    WithoutMembers(ids, At(local, dest));
    CarriedMove(mode, local, g, Without(ids, At(local, dest)), dest, live, keys);
  }

  /** After its live desktops have moved, a lost output's list holds nothing live. */
  lemma CarriedMoveOff(mode: Mode, local: Lists, g: Mapping, ids: seq<DesktopId>, dest: OutputKey, origin: OutputKey,
                       live: seq<DesktopId>, keys: seq<OutputKey>)
    requires Partition(local) && NoDup(ids) && dest in keys && origin !in keys
    requires forall id <- At(local, origin) :: id in live ==> id in ids
    ensures Carried(mode, local, g, MovedTo(local, ids, dest) - {origin}, g, live, keys)
  {
    var after := MovedTo(local, ids, dest);
    CarriedMove(mode, local, g, ids, dest, live, keys);
    if origin in local {
      MovedToOthers(local, ids, dest, origin);
    }
    forall id | mode != GlobalUnique && Hosted(mode, after, g, id, keys)
      ensures Hosted(mode, after - {origin}, g, id, keys)
    {
      var key :| key in keys && id in At(after, key);
      assert id in At(after - {origin}, key);
    }
    forall id | id in live && id in Listed(after)
      ensures id in Listed(after - {origin})
    {
      var key :| key in after && id in after[key];
      assert key != origin;
      var rest: Lists := after - {origin};
      assert key in rest && id in rest[key];
    }
  }

  /** Live desktops are old. */
  lemma OldIds(local: Lists, g: Mapping, live: seq<DesktopId>, next: DesktopId, ids: seq<DesktopId>)
    requires MapsHold(local, g, live, next) && forall id <- ids :: id in live
    ensures Partition(local) && NoDup(live) && forall id <- ids :: id < next
    ensures Consistent(g, live)
  {
  }

  /** Assigning a live desktop where it points already changes nothing. */
  lemma PointsThere(local: Lists, g: Mapping, live: seq<DesktopId>, next: DesktopId, id: DesktopId, dest: OutputKey)
    requires MapsHold(local, g, live, next) && id in live
    ensures id < next
    ensures id in g.inverse && g.inverse[id] == dest ==> Assigned(g, id, dest) == g
  {
    if id in g.inverse && g.inverse[id] == dest { AssignedIsMove(g, live, id, dest); }
  }

  // ---- the view that follows the active window ----

  ghost predicate FirstAmong(active: seq<DesktopId>, ids: seq<DesktopId>, i: int) {
    0 <= i < |active| && active[i] in ids && forall j | 0 <= j < i :: active[j] !in ids
  }

  ghost predicate FirstScreen(slots: seq<Slot>, byOutput: map<Output, OutputKey>, screens: seq<Output>, key: OutputKey, n: int) {
    && 0 <= n < |screens| && KeyOf(slots, byOutput, screens[n]) == Some(key)
    && forall m | 0 <= m < n :: KeyOf(slots, byOutput, screens[m]) != Some(key)
  }

  /** When the active window is on some of the desktops, the first such that is live is now shown on the first
      screen of that key; else every view is as it was. */
  ghost predicate FollowsActive(active: seq<DesktopId>, live: Option<seq<DesktopId>>, ids: seq<DesktopId>, slots: seq<Slot>,
                                byOutput: map<Output, OutputKey>, screens: seq<Output>, key: OutputKey,
                                was: map<Output, DesktopId>, now: map<Output, DesktopId>) {
    && (forall i, n | FirstAmong(active, ids, i) && FirstScreen(slots, byOutput, screens, key, n) ::
          now == if live.Some? && active[i] in live.value then was[screens[n] := active[i]] else was)
    && ((forall id <- active :: id !in ids) || (forall screen <- screens :: KeyOf(slots, byOutput, screen) != Some(key)) ==> now == was)
  }

  // ---- what a displacement pass keeps mapped ----

  function PointOf(inverse: map<DesktopId, OutputKey>, id: DesktopId): Option<OutputKey> {
    if id in inverse then Some(inverse[id]) else None
  }

  /** Nothing mapped is unmapped and no desktop is taken off the connected outputs. */
  ghost predicate StillMapped(mode: Mode, local: Lists, g: Mapping, local': Lists, g': Mapping, keys: seq<OutputKey>) {
    && (if mode == GlobalUnique then forall id <- g.inverse :: id in g'.inverse else forall id <- Listed(local) :: id in Listed(local'))
    && forall id | Hosted(mode, local, g, id, keys) :: Hosted(mode, local', g', id, keys)
  }

  lemma MappedSame(mode: Mode, local: Lists, g: Mapping, keys: seq<OutputKey>)
    ensures StillMapped(mode, local, g, local, g, keys)
  {
  }

  lemma StaysMapped(mode: Mode, local: Lists, g: Mapping, local': Lists, g': Mapping, keys: seq<OutputKey>)
    requires StillMapped(mode, local, g, local', g', keys)
    ensures if mode == GlobalUnique then forall id <- g.inverse :: id in g'.inverse else forall id <- Listed(local) :: id in Listed(local')
  {
  }

  lemma MappedOn(mode: Mode, l0: Lists, g0: Mapping, l1: Lists, g1: Mapping, l2: Lists, g2: Mapping, keys: seq<OutputKey>)
    requires StillMapped(mode, l0, g0, l1, g1, keys) && StillMapped(mode, l1, g1, l2, g2, keys)
    ensures StillMapped(mode, l0, g0, l2, g2, keys)
  {
  }

  /** A return keeps everything mapped: locally by a move, globally by pointing the desktops back. */
  lemma ReturnMaps(mode: Mode, local: Lists, g: Mapping, live: seq<DesktopId>, next: DesktopId, key: OutputKey, ids: seq<DesktopId>, keys: seq<OutputKey>)
    requires MapsHold(local, g, live, next) && NoDup(ids) && key in keys && mode != Shared
    ensures mode == PerOutputLocal ==> StillMapped(mode, local, g, MovedTo(local, Arriving(mode, local, key, ids), key), g, keys)
    ensures mode == GlobalUnique ==>
              forall lists :: StillMapped(mode, local, g, local, Mapping(lists, g.inverse + Pointing(ids, key)), keys)
  {
    MovedToKeeps(local, ids, key);
    CarriedMove(PerOutputLocal, local, g, ids, key, live, keys);
  }

  /** The live desktops of the output belong to connected outputs. */
  ghost predicate Rehomed(mode: Mode, prev: Lists, origin: OutputKey, local: Lists, g: Mapping, live: seq<DesktopId>, keys: seq<OutputKey>) {
    forall id <- At(prev, origin) :: id in live ==> Hosted(mode, local, g, id, keys)
  }

  /** The live desktops of the outputs just lost have found a connected one. */
  ghost predicate Resettled(s: Scene, local: Lists, g: Mapping, handled: set<OutputKey>) {
    forall origin <- handled | origin !in s.records :: Rehomed(s.mode, s.lists, origin, local, g, s.live, s.keys)
  }

  /** Both mappings and the records. */
  datatype Place = Place(local: Lists, g: Mapping, records: Records)

  function ListsOf(mode: Mode, place: Place): Lists {
    if mode == GlobalUnique then place.g.lists else place.local
  }

  /** An output whose desktops found a new survivor is recorded with that survivor. */
  ghost predicate SentTo(s: Scene, records: Records, loss: Loss) {
    loss.origin in records && !(loss.origin in s.records && s.records[loss.origin].dest in s.keys) ==> records[loss.origin].dest == loss.survivor
  }

  /** What handling one lost output does. */
  ghost predicate LostOne(s: Scene, was: Place, now: Place, loss: Loss) {
    && Carried(s.mode, was.local, was.g, now.local, now.g, s.live, s.keys)
    && (forall key | key != loss.origin :: RecordOf(now.records, key) == RecordOf(was.records, key))
    && (loss.origin !in s.records ==> Rehomed(s.mode, s.lists, loss.origin, now.local, now.g, s.live, s.keys))
    && SentTo(s, now.records, loss)
    && ListsOf(s.mode, now) == AfterLoss(s, ListsOf(s.mode, was), loss)
  }

  /** What handling some lost outputs did. */
  ghost predicate LostSome(s: Scene, was: Place, now: Place, handled: set<OutputKey>, losses: seq<Loss>, choice: Option<OutputKey>) {
    && Carried(s.mode, was.local, was.g, now.local, now.g, s.live, s.keys)
    && (forall key | key !in handled :: RecordOf(now.records, key) == RecordOf(was.records, key))
    && Resettled(s, now.local, now.g, handled)
    && LossesOf(losses, handled, s.keys, choice)
    && (forall loss <- losses :: SentTo(s, now.records, loss))
    && ListsOf(s.mode, now) == AfterLosses(s, losses)
  }

  lemma LostNone(s: Scene, was: Place, choice: Option<OutputKey>)
    requires ListsOf(s.mode, was) == s.lists
    ensures LostSome(s, was, was, {}, [], choice)
  {
    CarriedSame(s.mode, was.local, was.g, was.local, was.g, s.live, s.keys);
    LossesOfNone(s.keys, choice);
  }

  lemma LostOneMore(s: Scene, was: Place, one: Place, now: Place, handled: set<OutputKey>, losses: seq<Loss>, choice: Option<OutputKey>, loss: Loss)
    requires LostSome(s, was, one, handled, losses, choice) && LostOne(s, one, now, loss)
    requires loss.origin !in handled && Suits(loss.survivor, s.keys, choice)
    ensures LostSome(s, was, now, handled + {loss.origin}, losses + [loss], choice)
  {
    hide Hosted, LossesOf, AfterLoss, AfterLosses;
    CarriedOn(s.mode, was.local, was.g, one.local, one.g, now.local, now.g, s.live, s.keys);
    AfterNextLoss(s, losses, loss);
    LossesOfMore(losses, handled, s.keys, choice, loss);
    assert forall id | Hosted(s.mode, one.local, one.g, id, s.keys) :: Hosted(s.mode, now.local, now.g, id, s.keys);
    forall l | l in losses + [loss]
      ensures SentTo(s, now.records, l)
    {
      if l in losses {
        LossAmong(losses, handled, s.keys, choice, l);
        assert RecordOf(now.records, l.origin) == RecordOf(one.records, l.origin);
      }
    }
  }

  /** A lost output not handled yet has its record and lists nothing new. */
  lemma LostRemain(s: Scene, was: Place, now: Place, handled: set<OutputKey>, losses: seq<Loss>, choice: Option<OutputKey>, origin: OutputKey)
    requires LostSome(s, was, now, handled, losses, choice) && origin !in handled && origin !in s.keys
    ensures RecordOf(now.records, origin) == RecordOf(was.records, origin)
    ensures forall id <- At(now.local, origin) :: id in At(was.local, origin)
  {
  }

  /** Once all are handled the connected outputs' records are as they were and nothing live is unmapped. */
  lemma LostAll(s: Scene, was: Place, now: Place, losses: seq<Loss>, choice: Option<OutputKey>)
    requires LostSome(s, was, now, LostIn(s), losses, choice)
    ensures Resettled(s, now.local, now.g, LostIn(s)) && LossesOf(losses, LostIn(s), s.keys, choice)
    ensures ListsOf(s.mode, now) == AfterLosses(s, losses)
    ensures forall key <- s.keys :: RecordOf(now.records, key) == RecordOf(was.records, key)
    ensures forall loss <- losses :: SentTo(s, now.records, loss)
    ensures (forall id <- was.g.inverse :: id in now.g.inverse)
    ensures s.mode == PerOutputLocal ==> forall id <- s.live :: id in Listed(was.local) ==> id in Listed(now.local)
  {
  }

  lemma ReturnsCan(s: Scene, records: Records)
    requires Plausible(s) && forall key <- s.keys :: RecordOf(records, key) == RecordOf(s.records, key)
    ensures NoDup(s.keys) && forall key <- records | key in s.keys :: forall id <- records[key].ids :: id in s.live
  {
  }

  /** Losses and then returns make the pass. */
  lemma LossesThenReturns(s: Scene, losses: seq<Loss>, choice: Option<OutputKey>, now: Lists)
    requires Plausible(s) && LossesOf(losses, LostIn(s), s.keys, choice) && now == AfterReturns(s, AfterLosses(s, losses), |s.keys|)
    ensures now == Reconciled(s, losses) && AllBack(s, losses, now) && (AtRest(s) ==> now == s.lists)
  {
    ReconciledBack(s, losses);
    if AtRest(s) { RestStays(s, losses, choice); }
  }

  /** Returns leave resettled desktops with connected outputs. */
  lemma StillResettled(s: Scene, local: Lists, g: Mapping, local': Lists, g': Mapping, handled: set<OutputKey>)
    requires StillMapped(s.mode, local, g, local', g', s.keys) && Resettled(s, local, g, handled)
    ensures Resettled(s, local', g', handled)
  {
    hide Hosted;
    assert forall id | Hosted(s.mode, local, g, id, s.keys) :: Hosted(s.mode, local', g', id, s.keys);
  }

  /** What a displacement pass did: whether it ran, the outputs it found lost in the order it handled them,
      and the views it observed first and last. */
  datatype Report = Report(done: bool, lost: set<OutputKey>, losses: seq<Loss>, seenBefore: seq<(OutputKey, DesktopId)>,
                           seenAfter: seq<(OutputKey, DesktopId)>)

  /** The desktops and lists once the displacement pass is over and before cleanup. */
  function Staged(report: Report, s: Scene, d: Domain): Domain {
    if report.done then d.(lists := Reconciled(s, report.losses)) else d
  }

  ghost function Looked(h: ViewHistory.History, report: Report, keys: seq<OutputKey>): ViewHistory.History {
    ViewHistory.Connected(ViewHistory.ObservedAll(ViewHistory.Connected(ViewHistory.ObservedAll(h, report.seenBefore), SetOf(keys)),
                                                  report.seenAfter), SetOf(keys))
  }

  /** The desktops of the windows on an output. */
  ghost function MembersOf(slots: seq<Slot>, byOutput: map<Output, OutputKey>, windows: seq<Window>, key: OutputKey): set<DesktopId> {
    set w, id | w in windows && !w.sticky && w.output.Some? && KeyOf(slots, byOutput, w.output.value) == Some(key) && id in w.desktops :: id
  }

  lemma MembersSkip(slots: seq<Slot>, byOutput: map<Output, OutputKey>, windows: seq<Window>, w: Window)
    requires w.sticky
    ensures forall key :: MembersOf(slots, byOutput, windows + [w], key) == MembersOf(slots, byOutput, windows, key)
  {
  }

  lemma MembersStep(slots: seq<Slot>, byOutput: map<Output, OutputKey>, windows: seq<Window>, w: Window)
    requires !w.sticky && w.output.Some?
    ensures forall key :: MembersOf(slots, byOutput, windows + [w], key) ==
              MembersOf(slots, byOutput, windows, key) + (if KeyOf(slots, byOutput, w.output.value) == Some(key) then SetOf(w.desktops) else {})
  {
    forall key
      ensures MembersOf(slots, byOutput, windows + [w], key) ==
              MembersOf(slots, byOutput, windows, key) + (if KeyOf(slots, byOutput, w.output.value) == Some(key) then SetOf(w.desktops) else {})
    {
      var all, before := MembersOf(slots, byOutput, windows + [w], key), MembersOf(slots, byOutput, windows, key);
      forall id | id in before
        ensures id in all
      {
        var v :| v in windows && !v.sticky && v.output.Some? && KeyOf(slots, byOutput, v.output.value) == Some(key) && id in v.desktops;
        assert v in windows + [w];
      }
      assert w in windows + [w];
    }
  }

  /** After a signal every remembered view resolves. */
  lemma LookedResolves(h: ViewHistory.History, report: Report, keys: seq<OutputKey>, live: seq<DesktopId>, scope: Lists)
    requires ViewHistory.Sound(h)
    ensures var after := ViewHistory.Validated(Looked(h, report, keys), live, scope);
            && ViewHistory.Sound(after)
            && after == ViewHistory.Signalled(h, report.seenBefore, report.seenAfter, SetOf(keys), live, scope)
            && forall key <- after.previous :: key in keys && after.previous[key] in live && after.previous[key] in At(scope, key)
  {
    var one := ViewHistory.Connected(ViewHistory.ObservedAll(h, report.seenBefore), SetOf(keys));
    ViewHistory.ObservedAllSound(h, report.seenBefore);
    ViewHistory.ObservedAllSound(one, report.seenAfter);
  }

  /** What a committed migration did: the outputs, the target's view, the lists it found and what
      remains of the source's scope. */
  datatype Commit = Commit(from: OutputKey, to: OutputKey, view: DesktopId, lists: Lists, ring: seq<DesktopId>)

  /** The lists a migration changes: the global mode drops what is dead from the target's first. */
  function BaseOf(mode: Mode, lists: Lists, live: seq<DesktopId>, target: OutputKey): Lists {
    if mode == GlobalUnique then lists[target := Only(At(lists, target), live)] else lists
  }

  /** The desktop left the one list and sits behind the view on the other; every other list is as it was. */
  ghost predicate OnlyMigrated(was: Lists, now: Lists, id: DesktopId, from: OutputKey, to: OutputKey, view: DesktopId) {
    && At(now, from) == Without(At(was, from), [id]) && At(now, to) == InsertAfter(At(was, to), view, id)
    && forall key | key != from && key != to :: At(now, key) == At(was, key)
  }

  lemma MigratedOnly(mode: Mode, was: Lists, live: seq<DesktopId>, held: set<OutputKey>, primary: Option<OutputKey>, commit: Commit,
                     now: Lists, id: DesktopId)
    requires Refreshed(mode, was, live, held, primary, commit.lists) && commit.from != commit.to
    requires now == Migrated(BaseOf(mode, commit.lists, live, commit.to), id, commit.from, commit.to, commit.view)
    ensures Covers(was, live) ==> OnlyMigrated(was, now, id, commit.from, commit.to, commit.view)
  {
    if Covers(was, live) {
      RefreshedIdle(mode, was, live, held, primary, commit.lists);
    }
  }

  /** One step along a ring: the lists it was read from, the output, the desktops and the position before. */
  datatype RingStep = RingStep(lists: Lists, key: OutputKey, ring: seq<DesktopId>, at: nat)

  /** The view was at the position and is at the next one, wrapping round. */
  ghost predicate Stepped(step: RingStep, delta: int, was: Option<DesktopId>, now: Option<DesktopId>) {
    && step.at < |step.ring| && was == Some(step.ring[step.at])
    && now == Some(step.ring[Ring.Step(|step.ring|, step.at, delta)])
  }

  ghost predicate InView(view: Option<DesktopId>, ring: seq<DesktopId>) {
    view.Some? && view.value in ring
  }

  /** Records without the desktop; an origin left with none expires. */
  function RecordsWithout(records: Records, id: DesktopId): Records {
    map origin | origin in records && (id !in records[origin].ids || Without(records[origin].ids, [id]) != []) ::
      Record(Without(records[origin].ids, [id]), records[origin].dest)
  }

  /** Exactly the one desktop leaves the records; the others keep their order. */
  lemma RecordsWithoutSound(records: Records, id: DesktopId)
    requires RecordsSound(records)
    ensures RecordsSound(RecordsWithout(records, id))
    ensures DisplacedIds(RecordsWithout(records, id)) == DisplacedIds(records) - {id}
    ensures forall origin <- records :: id !in records[origin].ids ==> origin in RecordsWithout(records, id) && RecordsWithout(records, id)[origin] == records[origin]
  {
    var after := RecordsWithout(records, id);
    forall origin | origin in records
      ensures NoDup(Without(records[origin].ids, [id]))
      ensures forall x :: x in Without(records[origin].ids, [id]) <==> x in records[origin].ids && x != id
      ensures id !in records[origin].ids ==> Without(records[origin].ids, [id]) == records[origin].ids
    {
      WithoutMembers(records[origin].ids, [id]);
      if id !in records[origin].ids { WithoutNone(records[origin].ids, [id]); }
    }
    forall x | x in DisplacedIds(records) - {id}
      ensures x in DisplacedIds(after)
    {
      var origin :| origin in records && x in records[origin].ids;
      assert x in Without(records[origin].ids, [id]);
      assert origin in after && x in after[origin].ids;
    }
  }

  /** The list a migration takes from or adds to: in the global mode without what is not live. */
  function Moving(mode: Mode, lists: Lists, live: seq<DesktopId>, key: OutputKey): seq<DesktopId> {
    if mode == GlobalUnique then Only(At(lists, key), live) else At(lists, key)
  }

  /** The desktop was on the source's list and not on the target's. */
  lemma CheckedListed(mode: Mode, lists: Lists, live: seq<DesktopId>, id: DesktopId, commit: Commit)
    requires commit.from != commit.to
    requires id in Moving(mode, lists, live, commit.from) && id !in Moving(mode, lists, live, commit.to)
    ensures var base := BaseOf(mode, lists, live, commit.to); id in At(base, commit.from) && id !in At(base, commit.to)
  {
    OnlyMembers(At(lists, commit.from), live);
  }

  /** The source's own view while it remains in scope, else what the rule picks. */
  /** The rule's choice: under the most-recently-used rule the remembered view while it remains, else the last. */
  ghost predicate RuleChooses(refill: Option<DesktopId>, rule: RefillRule, previous: Option<DesktopId>, ring: seq<DesktopId>) {
    if rule.MostRecentlyUsed? && previous.Some? && previous.value in ring then refill == previous
    else if ring == [] then refill == None
    else refill == Some(ring[|ring| - 1])
  }

  /** The refill lies in the remaining scope, and is missing only when nothing remains: the source's own view
      while it remains, else the rule's choice. */
  ghost predicate Refilled(refill: Option<DesktopId>, view: Option<DesktopId>, rule: RefillRule, previous: Option<DesktopId>,
                           ring: seq<DesktopId>, faithful: bool) {
    && (refill == None <==> ring == []) && (refill.Some? ==> refill.value in ring)
    && (refill == view || RuleChooses(refill, rule, previous, ring))
    && (faithful ==> if view.Some? && view.value in ring then refill == view else RuleChooses(refill, rule, previous, ring))
  }

  lemma HoldMigratedLocal(local: Lists, g: Mapping, live: seq<DesktopId>, next: DesktopId, id: DesktopId, source: OutputKey, target: OutputKey, view: DesktopId)
    requires MapsHold(local, g, live, next) && source != target && id in At(local, source) && view != id
    ensures MapsHold(Migrated(local, id, source, target, view), g, live, next)
    ensures NoDup(InsertAfter(At(local, target), view, id))
  {
    MigratedKeeps(local, id, source, target, view);
    assert Migrated(local, id, source, target, view)[target] == InsertAfter(At(local, target), view, id);
  }

  /** The global migration keeps the inverse map in step. */
  lemma HoldMigratedGlobal(local: Lists, g: Mapping, live: seq<DesktopId>, next: DesktopId, id: DesktopId, target: OutputKey, view: DesktopId)
    requires MapsHold(local, g, live, next) && id < next
    ensures var u := Unassigned(g, id);
            var list := InsertAfter(Only(At(u.lists, target), live), view, id);
            NoDup(list) && MapsHold(local, Mapping(u.lists[target := list], u.inverse[id := target]), live, next)
  {
    HoldUnassigned(local, g, live, next, id);
    UnassignedKeeps(g, live, id);
    HoldReplaced(local, Unassigned(g, id), live, next, id, target, view);
  }

  /** It moves between the lists as the local one does. */
  lemma MigratedGlobally(g: Mapping, live: seq<DesktopId>, id: DesktopId, source: OutputKey, target: OutputKey, view: DesktopId)
    requires Consistent(g, live) && source != target && id in Only(At(g.lists, source), live)
    ensures var u := Unassigned(g, id);
            u.lists[target := InsertAfter(Only(At(u.lists, target), live), view, id)] ==
            Migrated(g.lists[target := Only(At(g.lists, target), live)], id, source, target, view)
  {
    OnlyMembers(At(g.lists, source), live);
    UnassignedFrom(g, live, id, source);
  }

  lemma HoldReplaced(local: Lists, u: Mapping, live: seq<DesktopId>, next: DesktopId, id: DesktopId, target: OutputKey, view: DesktopId)
    requires MapsHold(local, u, live, next) && id !in u.inverse && id < next
    ensures var list := InsertAfter(Only(At(u.lists, target), live), view, id);
            NoDup(list) && MapsHold(local, Mapping(u.lists[target := list], u.inverse[id := target]), live, next)
  {
    ListReplaced(u, live, id, target, view);
  }

  /** Unassigning touches only the list that names the desktop. */
  lemma UnassignedFrom(g: Mapping, live: seq<DesktopId>, id: DesktopId, source: OutputKey)
    requires Consistent(g, live) && id in At(g.lists, source)
    ensures Unassigned(g, id).lists == g.lists[source := Without(g.lists[source], [id])]
  {
    assert id in g.inverse && g.inverse[id] == source;
    RemoveFirstIsWithout(g.lists[source], id);
  }

  /** A list without its dead desktops and with an unassigned one behind the view. */
  lemma ListReplaced(u: Mapping, live: seq<DesktopId>, id: DesktopId, target: OutputKey, view: DesktopId)
    requires Consistent(u, live) && id !in u.inverse
    ensures var list := InsertAfter(Only(At(u.lists, target), live), view, id);
            NoDup(list) && Consistent(Mapping(u.lists[target := list], u.inverse[id := target]), live)
  {
    hide InsertAfter;
    OnlyMembers(At(u.lists, target), live);
    InsertAfterMembers(Only(At(u.lists, target), live), view, id);
  }

  /** A listed desktop was created. */
  lemma HeldBelow(desktops: seq<DesktopId>, screens: seq<Output>, views: map<Output, DesktopId>, sharedView: Option<DesktopId>,
                  windows: seq<Window>, next: DesktopId, id: DesktopId)
    requires Sane(desktops, screens, views, sharedView, windows, next) && id in desktops
    ensures id < next && forall output <- views :: views[output] < next
  {
  }

  lemma LiveSound(desktops: seq<DesktopId>, screens: seq<Output>, views: map<Output, DesktopId>, sharedView: Option<DesktopId>,
                  windows: seq<Window>, next: DesktopId)
    requires Sane(desktops, screens, views, sharedView, windows, next)
    ensures NoDup(desktops) && NoDup(screens) && forall id <- desktops :: id < next
  {
  }

  /** A connected output with a readable tuple has a key, and it is among the connected keys. */
  lemma KeyedConnected(slots: seq<Slot>, byOutput: map<Output, OutputKey>, outputs: seq<Output>, output: Output)
    requires KeyedInOrder(slots, byOutput, outputs, |outputs|) && output in outputs && output.tuple.Some?
    ensures KeyOf(slots, byOutput, output) == Some(byOutput[output]) && output in byOutput
    ensures KeysOf(slots, byOutput, outputs) != []
  {
    var j :| 0 <= j < |outputs| && outputs[j] == output;
    KeyListed(slots, byOutput, outputs, output);
  }

  lemma {:induction false} KeyListed(slots: seq<Slot>, byOutput: map<Output, OutputKey>, outputs: seq<Output>, output: Output)
    requires output in outputs && KeyOf(slots, byOutput, output).Some?
    ensures KeyOf(slots, byOutput, output).value in KeysOf(slots, byOutput, outputs)
  {
    if outputs[|outputs| - 1] != output {
      KeyListed(slots, byOutput, outputs[..|outputs| - 1], output);
    }
  }

  /** Refreshing the keys of the same outputs keeps them. */
  lemma KeyStays(slots: seq<Slot>, byOutput: map<Output, OutputKey>, slots': seq<Slot>, byOutput': map<Output, OutputKey>,
                 outputs: seq<Output>, output: Output)
    requires KeyedInOrder(slots, byOutput, outputs, |outputs|) && KeyedInOrder(slots', byOutput', outputs, |outputs|) && slots <= slots'
    requires output in outputs && output.tuple.Some?
    ensures KeyOf(slots', byOutput', output) == KeyOf(slots, byOutput, output)
  {
    var j: nat :| j < |outputs| && outputs[j] == output;
    ReturningOutputKeepsKey(slots, slots', output.tuple.value, Carrying(outputs[..j], output.tuple.value), byOutput[output], byOutput'[output]);
  }

  /** Refreshing the keys of the same outputs keeps all of them. */
  lemma KeysStay(slots: seq<Slot>, byOutput: map<Output, OutputKey>, slots': seq<Slot>, byOutput': map<Output, OutputKey>, outputs: seq<Output>)
    requires KeyedInOrder(slots, byOutput, outputs, |outputs|) && KeyedInOrder(slots', byOutput', outputs, |outputs|) && slots <= slots'
    requires (forall o <- byOutput :: o.tuple.Some?) && (forall o <- byOutput' :: o.tuple.Some?)
    ensures KeysOf(slots', byOutput', outputs) == KeysOf(slots, byOutput, outputs)
    ensures forall output <- outputs :: KeyOf(slots', byOutput', output) == KeyOf(slots, byOutput, output)
  {
    forall output | output in outputs
      ensures KeyOf(slots', byOutput', output) == KeyOf(slots, byOutput, output)
    {
      if output.tuple.Some? {
        KeyStays(slots, byOutput, slots', byOutput', outputs, output);
      }
    }
    KeysOfSame(slots, byOutput, slots', byOutput', outputs);
  }

  lemma {:induction false} KeysOfSame(slots: seq<Slot>, byOutput: map<Output, OutputKey>, slots': seq<Slot>, byOutput': map<Output, OutputKey>, outputs: seq<Output>)
    requires forall output <- outputs :: KeyOf(slots', byOutput', output) == KeyOf(slots, byOutput, output)
    ensures KeysOf(slots', byOutput', outputs) == KeysOf(slots, byOutput, outputs)
  {
    if outputs != [] {
      assert outputs[|outputs| - 1] in outputs;
      KeysOfSame(slots, byOutput, slots', byOutput', outputs[..|outputs| - 1]);
    }
  }

  /** Records of live desktops are as they were. */
  lemma NothingPruned(records: Records, live: seq<DesktopId>)
    requires forall origin <- records :: records[origin].ids != [] && forall id <- records[origin].ids :: id in live
    ensures PrunedRecords(records, live) == records
  {
    forall origin | origin in records
      ensures Only(records[origin].ids, live) == records[origin].ids
    {
      OnlyMembers(records[origin].ids, live);
    }
  }

  /** Outputs without a readable tuple have no keys. */
  lemma {:induction false} NoKeys(slots: seq<Slot>, byOutput: map<Output, OutputKey>, outputs: seq<Output>)
    requires (forall o <- byOutput :: o.tuple.Some?) && forall output <- outputs :: output.tuple.None?
    ensures KeysOf(slots, byOutput, outputs) == []
  {
    if outputs != [] {
      assert outputs[|outputs| - 1] in outputs;
      NoKeys(slots, byOutput, outputs[..|outputs| - 1]);
    }
  }

  /** Outputs that have keys have different ones. */
  ghost predicate KeyedApart(slots: seq<Slot>, byOutput: map<Output, OutputKey>, outputs: seq<Output>) {
    forall i, j | 0 <= i < j < |outputs| ::
      KeyOf(slots, byOutput, outputs[i]).Some? ==> KeyOf(slots, byOutput, outputs[i]) != KeyOf(slots, byOutput, outputs[j])
  }

  lemma KeyedInOrderApart(slots: seq<Slot>, byOutput: map<Output, OutputKey>, outputs: seq<Output>)
    requires KeyedInOrder(slots, byOutput, outputs, |outputs|) && forall n | 0 <= n < |slots| :: slots[n].key == KeyName(n)
    requires forall o <- byOutput :: o.tuple.Some?
    ensures KeyedApart(slots, byOutput, outputs)
  {
    forall i: nat, j: nat | i < j < |outputs| && KeyOf(slots, byOutput, outputs[i]).Some?
      ensures KeyOf(slots, byOutput, outputs[i]) != KeyOf(slots, byOutput, outputs[j])
    {
      if outputs[j].tuple.Some? {
        DistinctOutputsDistinctKeys(slots, outputs, byOutput, i, j);
      }
    }
  }

  /** Every observation is of an output's own key and view, no output twice; and each output in
      view is observed. */
  lemma {:induction false} SeenDistinct(slots: seq<Slot>, byOutput: map<Output, OutputKey>, views: map<Output, DesktopId>, outputs: seq<Output>)
    requires KeyedApart(slots, byOutput, outputs)
    ensures ViewHistory.DistinctKeys(SeenIn(slots, byOutput, views, outputs))
    ensures forall i | 0 <= i < |SeenIn(slots, byOutput, views, outputs)| ::
              exists o :: o in outputs && KeyOf(slots, byOutput, o) == Some(SeenIn(slots, byOutput, views, outputs)[i].0)
  {
    if outputs != [] {
      var rest, last := outputs[..|outputs| - 1], outputs[|outputs| - 1];
      assert outputs == rest + [last];
      SeenDistinct(slots, byOutput, views, rest);
      var front := SeenIn(slots, byOutput, views, rest);
      forall i | 0 <= i < |front|
        ensures Some(front[i].0) != KeyOf(slots, byOutput, last)
      {
        var o :| o in rest && KeyOf(slots, byOutput, o) == Some(front[i].0);
        var n :| 0 <= n < |rest| && rest[n] == o;
        assert outputs[n] == o;
      }
    }
  }

  lemma {:induction false} SeenHas(slots: seq<Slot>, byOutput: map<Output, OutputKey>, views: map<Output, DesktopId>, outputs: seq<Output>, output: Output)
    returns (i: nat)
    requires output in outputs && output in views && KeyOf(slots, byOutput, output).Some?
    ensures i < |SeenIn(slots, byOutput, views, outputs)|
    ensures SeenIn(slots, byOutput, views, outputs)[i] == (KeyOf(slots, byOutput, output).value, views[output])
  {
    var rest := outputs[..|outputs| - 1];
    if outputs[|outputs| - 1] == output {
      i := |SeenIn(slots, byOutput, views, rest)|;
    } else {
      i := SeenHas(slots, byOutput, views, rest, output);
    }
  }

  /** A signal over unchanged views observes the output's view and remembers the one before it. */
  lemma ToggleRemembered(h: ViewHistory.History, slots: seq<Slot>, byOutput: map<Output, OutputKey>, outputs: seq<Output>,
                         views: map<Output, DesktopId>, output: Output, live: seq<DesktopId>, scope: Lists)
    requires KeyedInOrder(slots, byOutput, outputs, |outputs|) && forall n | 0 <= n < |slots| :: slots[n].key == KeyName(n)
    requires forall o <- byOutput :: o.tuple.Some?
    requires output in outputs && output.tuple.Some? && output in views && KeyOf(slots, byOutput, output).Some?
    ensures var key := KeyOf(slots, byOutput, output).value;
            var seen := SeenIn(slots, byOutput, views, outputs);
            var after := ViewHistory.Signalled(h, seen, seen, SetOf(KeysOf(slots, byOutput, outputs)), live, scope);
            && ViewHistory.At(after.baseline, key) == Some(views[output])
            && (key in h.baseline && h.baseline[key] != views[output] && h.baseline[key] in live && h.baseline[key] in At(scope, key) ==>
                  ViewHistory.At(after.previous, key) == Some(h.baseline[key]))
  {
    var seen := SeenIn(slots, byOutput, views, outputs);
    KeyedInOrderApart(slots, byOutput, outputs);
    SeenDistinct(slots, byOutput, views, outputs);
    var i := SeenHas(slots, byOutput, views, outputs, output);
    forall j | 0 <= j < |seen|
      ensures seen[j].0 in SetOf(KeysOf(slots, byOutput, outputs))
    {
      var o :| o in outputs && KeyOf(slots, byOutput, o) == Some(seen[j].0);
      KeyListed(slots, byOutput, outputs, o);
    }
    ViewHistory.SignalRemembers(h, seen, i, SetOf(KeysOf(slots, byOutput, outputs)), live, scope);
  }

  /** Each of the desktops is on that list alone. */
  ghost predicate AllOn(lists: Lists, ids: seq<DesktopId>, dest: OutputKey) {
    forall id <- ids :: OnlyOn(lists, id, dest)
  }

  lemma EnsuredOn(lists: Lists, ids: seq<DesktopId>, dest: OutputKey)
    requires Partition(lists) && NoDup(ids)
    ensures AllOn(MovedTo(lists, Without(ids, At(lists, dest)), dest), ids, dest)
  {
    forall id | id in ids
      ensures OnlyOn(MovedTo(lists, Without(ids, At(lists, dest)), dest), id, dest)
    {
      ArrivedOnly(GlobalUnique, lists, dest, ids, id);
    }
  }

  lemma MovedTogether(lists: Lists, ids: seq<DesktopId>, dest: OutputKey)
    requires Partition(lists) && NoDup(ids)
    ensures AllOn(MovedTo(lists, ids, dest), ids, dest)
  {
    MovedToKeeps(lists, ids, dest);
  }

  lemma MovedOn(lists: Lists, ids: seq<DesktopId>, dest: OutputKey, origin: OutputKey)
    requires Partition(lists) && NoDup(ids) && origin != dest
    ensures AllOn(MovedTo(lists, ids, dest) - {origin}, ids, dest)
  {
    MovedToKeeps(lists, ids, dest);
  }

  /** In the global maps a live desktop is alone on the list of the output it points at. */
  lemma OwnedOn(local: Lists, g: Mapping, live: seq<DesktopId>, next: DesktopId, ids: seq<DesktopId>, dest: OutputKey)
    requires MapsHold(local, g, live, next)
    ensures (forall id <- ids :: id in live && id in g.inverse && g.inverse[id] == dest) ==> AllOn(g.lists, ids, dest)
  {
    ConsistentPartition(g, live);
  }

  lemma AllHosted(mode: Mode, local: Lists, g: Mapping, live: seq<DesktopId>, next: DesktopId, ids: seq<DesktopId>, dest: OutputKey, keys: seq<OutputKey>)
    requires MapsHold(local, g, live, next) && mode != Shared && dest in keys
    requires AllOn(if mode == GlobalUnique then g.lists else local, ids, dest)
    ensures forall id <- ids :: Hosted(mode, local, g, id, keys)
  {
    forall id | id in ids
      ensures Hosted(mode, local, g, id, keys)
    {
      assert mode != GlobalUnique ==> id in At(local, dest);
    }
  }

  /** The latest view seen per output. */
  function Latest(seen: seq<(OutputKey, DesktopId)>): map<OutputKey, DesktopId> {
    if seen == [] then map[] else Latest(seen[..|seen| - 1])[seen[|seen| - 1].0 := seen[|seen| - 1].1]
  }

  /** Outputs that are gone keep what was noted of them exactly while they are displaced. */
  ghost predicate GoneKept<T(!new)>(was: map<OutputKey, T>, now: map<OutputKey, T>, keys: seq<OutputKey>, displaced: set<OutputKey>) {
    forall key | key !in keys :: (key in now <==> key in was && key in displaced) && (key in now ==> now[key] == was[key])
  }

  /** What is noted of the output is the view of a screen that goes by that key. */
  ghost predicate ViewNoted(noted: map<OutputKey, DesktopId>, slots: seq<Slot>, byOutput: map<Output, OutputKey>, views: map<Output, DesktopId>,
                            screens: seq<Output>, key: OutputKey) {
    key in noted && exists other <- screens :: other in views && KeyOf(slots, byOutput, other) == Some(key) && noted[key] == views[other]
  }

  /** Every observation is of some screen's key. */
  ghost predicate SeenAmong(slots: seq<Slot>, byOutput: map<Output, OutputKey>, screens: seq<Output>, seen: seq<(OutputKey, DesktopId)>) {
    forall i | 0 <= i < |seen| :: exists output <- screens :: KeyOf(slots, byOutput, output) == Some(seen[i].0)
  }

  lemma {:induction false} LatestKeys(seen: seq<(OutputKey, DesktopId)>)
    ensures forall key :: key in Latest(seen) <==> exists i :: 0 <= i < |seen| && seen[i].0 == key
  {
    if seen != [] {
      var front := seen[..|seen| - 1];
      LatestKeys(front);
      assert seen == front + [seen[|seen| - 1]];
      forall key
        ensures key in Latest(seen) <==> exists i :: 0 <= i < |seen| && seen[i].0 == key
      {
        if key in Latest(front) {
          var i :| 0 <= i < |front| && front[i].0 == key;
          assert seen[i].0 == key;
        }
      }
    }
  }

  lemma LatestAmong(slots: seq<Slot>, byOutput: map<Output, OutputKey>, screens: seq<Output>, seen: seq<(OutputKey, DesktopId)>)
    requires SeenAmong(slots, byOutput, screens, seen)
    ensures forall key <- Latest(seen) :: key in KeysOf(slots, byOutput, screens)
  {
    LatestKeys(seen);
    forall key | key in Latest(seen)
      ensures key in KeysOf(slots, byOutput, screens)
    {
      var i :| 0 <= i < |seen| && seen[i].0 == key;
      var output :| output in screens && KeyOf(slots, byOutput, output) == Some(seen[i].0);
      KeyListed(slots, byOutput, screens, output);
    }
  }

  /** The latest view seen of a screen's key is the view of a screen that goes by it. */
  lemma {:induction false} SeenLatest(slots: seq<Slot>, byOutput: map<Output, OutputKey>, views: map<Output, DesktopId>, screens: seq<Output>, output: Output)
    requires output in screens && output in views && KeyOf(slots, byOutput, output).Some?
    ensures ViewNoted(Latest(SeenIn(slots, byOutput, views, screens)), slots, byOutput, views, screens, KeyOf(slots, byOutput, output).value)
    ensures KeyOf(slots, byOutput, output).value in KeysOf(slots, byOutput, screens)
  {
    KeyListed(slots, byOutput, screens, output);
    var rest, last := screens[..|screens| - 1], screens[|screens| - 1];
    assert screens == rest + [last];
    var front, key := SeenIn(slots, byOutput, views, rest), KeyOf(slots, byOutput, last);
    if key.Some? && last in views {
      LatestNext(front, key.value, views[last]);
    }
    if output in rest && !(key == KeyOf(slots, byOutput, output) && last in views) {
      SeenLatest(slots, byOutput, views, rest, output);
    }
  }

  lemma VisibleNoted(was: map<OutputKey, DesktopId>, now: map<OutputKey, DesktopId>, slots: seq<Slot>, byOutput: map<Output, OutputKey>,
                     screens: seq<Output>, displaced: set<OutputKey>, seen: seq<(OutputKey, DesktopId)>)
    requires SeenAmong(slots, byOutput, screens, seen)
    requires now == Known(was + Latest(seen), SetOf(KeysOf(slots, byOutput, screens)) + displaced)
    ensures GoneKept(was, now, KeysOf(slots, byOutput, screens), displaced)
  {
    LatestAmong(slots, byOutput, screens, seen);
  }

  lemma ViewsNoted(was: map<OutputKey, DesktopId>, now: map<OutputKey, DesktopId>, slots: seq<Slot>, byOutput: map<Output, OutputKey>,
                   views: map<Output, DesktopId>, screens: seq<Output>, displaced: set<OutputKey>)
    requires now == Known(was + Latest(SeenIn(slots, byOutput, views, screens)), SetOf(KeysOf(slots, byOutput, screens)) + displaced)
    ensures forall output <- screens | output in views && KeyOf(slots, byOutput, output).Some? ::
              ViewNoted(now, slots, byOutput, views, screens, KeyOf(slots, byOutput, output).value)
  {
    forall output | output in screens && output in views && KeyOf(slots, byOutput, output).Some?
      ensures ViewNoted(now, slots, byOutput, views, screens, KeyOf(slots, byOutput, output).value)
    {
      SeenLatest(slots, byOutput, views, screens, output);
    }
  }

  function Known<T>(m: map<OutputKey, T>, keys: set<OutputKey>): map<OutputKey, T> {
    map key | key in m && key in keys :: m[key]
  }

  lemma OccupiedBelow(desktops: seq<DesktopId>, screens: seq<Output>, views: map<Output, DesktopId>, sharedView: Option<DesktopId>,
                      windows: seq<Window>, next: DesktopId)
    requires Sane(desktops, screens, views, sharedView, windows, next)
    ensures forall id <- OccupiedBy(windows) :: id < next
  {
  }

  lemma RemovedMore(lists: Lists, ids: seq<DesktopId>, id: DesktopId)
    ensures Removed(Removed(lists, ids), [id]) == Removed(lists, ids + [id])
  {
    forall key | key in lists
      ensures Without(Without(lists[key], ids), [id]) == Without(lists[key], ids + [id])
    {
      WithoutMore(lists[key], ids, id);
    }
  }

  lemma HoldMoved(local: Lists, g: Mapping, live: seq<DesktopId>, next: DesktopId, ids: seq<DesktopId>, dest: OutputKey)
    requires MapsHold(local, g, live, next) && NoDup(ids) && forall id <- ids :: id < next
    ensures MapsHold(MovedTo(local, ids, dest), g, live, next)
  {
    MovedToKeeps(local, ids, dest);
  }

  lemma HoldDropped(local: Lists, g: Mapping, live: seq<DesktopId>, next: DesktopId, origin: OutputKey)
    requires MapsHold(local, g, live, next)
    ensures MapsHold(local - {origin}, g, live, next)
  {
    forall id | id in Listed(local - {origin})
      ensures id in Listed(local)
    {
    }
  }

  lemma HoldDroppedGlobal(local: Lists, g: Mapping, live: seq<DesktopId>, next: DesktopId, origin: OutputKey)
    requires MapsHold(local, g, live, next) && origin in g.lists && forall id <- g.lists[origin] :: id !in live
    ensures MapsHold(local, Mapping(g.lists - {origin}, g.inverse), live, next)
  {
  }

  lemma NewIsLast(live: seq<DesktopId>, id: DesktopId)
    requires id !in live
    ensures Without(live + [id], live) == [id]
  {
    FilterConcat(x => x !in live, live, [id]);
    WithoutSingle(id, live);
    var none := Without(live, live);
    assert none != [] ==> none[0] in none;
    WithoutMembers(live, live);
  }

  /** A new desktop joins the end of a local list. */
  lemma HoldAppended(local: Lists, g: Mapping, live: seq<DesktopId>, id: DesktopId, key: OutputKey, live': seq<DesktopId>)
    requires MapsHold(local, g, live, id) && live' == live + [id]
    ensures MapsHold(local[key := At(local, key) + [id]], g, live', id + 1)
  {
    AppendedKeeps(local, key, [id]);
    NoDupConcat(live, [id]);
    HoldOn(local, g, live, id, live', id + 1);
  }

  /** A new desktop is assigned to an output. */
  lemma HoldAssignedNew(local: Lists, g: Mapping, live: seq<DesktopId>, id: DesktopId, key: OutputKey, live': seq<DesktopId>)
    requires MapsHold(local, g, live, id) && live' == live + [id]
    ensures MapsHold(local, Assigned(g, id, key), live', id + 1)
    ensures Assigned(g, id, key).lists == Appended(g.lists, key, [id])
  {
    NoDupConcat(live, [id]);
    HoldOn(local, g, live, id, live', id + 1);
    AssignedKeeps(g, live', id, key);
    AssignedIsMove(g, live', id, key);
    ConsistentPartition(g, live);
    assert id !in Listed(g.lists);
    MoveUnlisted(g.lists, [id], key);
  }

  function PrimaryOf(was: Option<OutputKey>, keys: seq<OutputKey>): OutputKey {
    if was.Some? && was.value in keys then was.value else if keys == [] then "" else keys[0]
  }
}
