// Rules over values that the workspace adapter follows: displaced desktops and
// their return, two-view history, migration and the relative ring.

module Displacement {
  import opened Prelude
  import opened SessionKeys
  import opened WorkspaceLists

  /** The desktops displaced from a lost output and the output they went to. */
  datatype Record = Record(ids: seq<DesktopId>, dest: OutputKey)

  type Records = map<OutputKey, Record>

  ghost predicate RecordsSound(records: Records) {
    forall origin <- records :: records[origin].ids != [] && NoDup(records[origin].ids)
  }

  function DisplacedIds(records: Records): set<DesktopId> {
    set origin, id | origin in records && id in records[origin].ids :: id
  }

  /** Records keep their live desktops and expire with the last of them. */
  function PrunedRecords(records: Records, live: seq<DesktopId>): Records {
    map origin | origin in records && Only(records[origin].ids, live) != [] ::
      Record(Only(records[origin].ids, live), records[origin].dest)
  }

  lemma PrunedRecordsSound(records: Records, live: seq<DesktopId>)
    requires RecordsSound(records)
    ensures RecordsSound(PrunedRecords(records, live))
    ensures forall origin <- PrunedRecords(records, live) :: forall id <- PrunedRecords(records, live)[origin].ids :: id in live
    ensures DisplacedIds(PrunedRecords(records, live)) <= DisplacedIds(records)
  {
    var after := PrunedRecords(records, live);
    forall origin | origin in records
      ensures NoDup(Only(records[origin].ids, live))
      ensures forall id :: id in Only(records[origin].ids, live) <==> id in records[origin].ids && id in live
    {
      OnlyMembers(records[origin].ids, live);
    }
    forall id | id in DisplacedIds(after)
      ensures id in DisplacedIds(records)
    {
      var origin :| origin in after && id in after[origin].ids;
      assert origin in records && id in records[origin].ids;
    }
  }

  /** A live desktop stays recorded. */
  lemma StaysRecorded(records: Records, live: seq<DesktopId>, id: DesktopId)
    requires id in DisplacedIds(records) && id in live
    ensures id in DisplacedIds(PrunedRecords(records, live))
  {
    var origin :| origin in records && id in records[origin].ids;
    OnlyMembers(records[origin].ids, live);
    assert origin in PrunedRecords(records, live) && id in PrunedRecords(records, live)[origin].ids;
  }

  function RecordOf(records: Records, origin: OutputKey): Option<Record> {
    if origin in records then Some(records[origin]) else None
  }

  /** Where the desktops of a lost output go: the active screen's output while connected, else the first. */
  function Survivor(keys: seq<OutputKey>, active: Option<OutputKey>): (dest: OutputKey)
    requires keys != []
    ensures dest in keys
  {
    if |keys| > 1 && active.Some? && active.value in keys then active.value else keys[0]
  }

  /** The desktops sit at the end of that list in this order, once, and on no other. */
  ghost predicate Home(lists: Lists, key: OutputKey, ids: seq<DesktopId>) {
    && key in lists && |ids| <= |lists[key]| && lists[key][|lists[key]| - |ids|..] == ids
    && forall id <- ids :: OnlyOn(lists, id, key)
  }

  lemma MovedAreHome(lists: Lists, ids: seq<DesktopId>, key: OutputKey)
    requires Partition(lists) && NoDup(ids)
    ensures Home(MovedTo(lists, ids, key), key, ids)
  {
    MovedToKeeps(lists, ids, key);
  }

  /** Moving other desktops elsewhere leaves returned ones home. */
  lemma StaysHome(lists: Lists, key: OutputKey, ids: seq<DesktopId>, moved: seq<DesktopId>, dest: OutputKey)
    requires Partition(lists) && NoDup(moved) && Home(lists, key, ids) && dest != key
    requires forall id <- moved :: id !in ids
    ensures Home(MovedTo(lists, moved, dest), key, ids)
  {
    TailStays(lists[key], ids, moved);
    forall id | id in ids
      ensures OnlyOn(MovedTo(lists, moved, dest), id, key)
    {
      StaysOnlyOn(lists, key, id, moved, dest);
    }
  }

  lemma TailStays(list: seq<DesktopId>, ids: seq<DesktopId>, moved: seq<DesktopId>)
    requires |ids| <= |list| && list[|list| - |ids|..] == ids && forall id <- moved :: id !in ids
    ensures |ids| <= |Without(list, moved)| && Without(list, moved)[|Without(list, moved)| - |ids|..] == ids
  {
    var front := list[..|list| - |ids|];
    assert list == front + ids;
    FilterConcat(x => x !in moved, front, ids);
    WithoutNone(ids, moved);
  }

  lemma StaysOnlyOn(lists: Lists, key: OutputKey, id: DesktopId, moved: seq<DesktopId>, dest: OutputKey)
    requires OnlyOn(lists, id, key) && NoDup(moved) && id !in moved && dest != key
    ensures OnlyOn(MovedTo(lists, moved, dest), id, key)
  {
    var after := MovedTo(lists, moved, dest);
    WithoutMembers(lists[key], moved);
    WithoutMembers(WorkspaceLists.At(lists, dest), moved);
    forall other | other in after && other != key
      ensures id !in after[other]
    {
      if other in lists {
        WithoutMembers(lists[other], moved);
      }
    }
  }
}

module ViewHistory {
  import opened Prelude
  import opened SessionKeys
  import opened WorkspaceLists

  /** Per output: the view before the current one, and the view last observed. */
  datatype History = History(previous: map<OutputKey, DesktopId>, baseline: map<OutputKey, DesktopId>)

  /** A remembered view belongs to an observed output and differs from its observed view. */
  ghost predicate Sound(h: History) {
    forall key <- h.previous :: key in h.baseline && h.previous[key] != h.baseline[key]
  }

  /** One observation of an output's view. */
  function Observed(h: History, key: OutputKey, view: DesktopId): History {
    if key !in h.baseline then h.(baseline := h.baseline[key := view])
    else if h.baseline[key] == view then h
    else History(h.previous[key := h.baseline[key]], h.baseline[key := view])
  }

  function ObservedAll(h: History, views: seq<(OutputKey, DesktopId)>): History {
    if views == [] then h
    else Observed(ObservedAll(h, views[..|views| - 1]), views[|views| - 1].0, views[|views| - 1].1)
  }

  /** Outputs that are gone are forgotten. */
  function Connected(h: History, keys: set<OutputKey>): History {
    History(map key | key in h.previous && key in keys :: h.previous[key],
            map key | key in h.baseline && key in keys :: h.baseline[key])
  }

  lemma {:induction false} ObservedAllSound(h: History, views: seq<(OutputKey, DesktopId)>)
    requires Sound(h)
    ensures Sound(ObservedAll(h, views))
  {
    if views != [] { ObservedAllSound(h, views[..|views| - 1]); }
  }

  ghost predicate DistinctKeys(views: seq<(OutputKey, DesktopId)>) {
    forall i, j | 0 <= i < j < |views| :: views[i].0 != views[j].0
  }

  /** With one observation per output, each output ends observed at its view and remembers what
      its view was when that changed. */
  lemma {:induction false} ObservedOnce(h: History, views: seq<(OutputKey, DesktopId)>, i: nat)
    requires DistinctKeys(views) && i < |views|
    ensures var (key, view) := views[i];
            var after := ObservedAll(h, views);
            && key in after.baseline && after.baseline[key] == view
            && (key in h.baseline && h.baseline[key] != view ==> key in after.previous && after.previous[key] == h.baseline[key])
            && (key in h.baseline && h.baseline[key] == view ==> At(after.previous, key) == At(h.previous, key))
  {
    var front, last := views[..|views| - 1], views[|views| - 1];
    if i == |views| - 1 {
      Unobserved(h, front, last.0);
    } else {
      assert views[i] == front[i];
      ObservedOnce(h, front, i);
    }
  }

  function At(m: map<OutputKey, DesktopId>, key: OutputKey): Option<DesktopId> {
    if key in m then Some(m[key]) else None
  }

  lemma {:induction false} Unobserved(h: History, views: seq<(OutputKey, DesktopId)>, key: OutputKey)
    requires forall i | 0 <= i < |views| :: views[i].0 != key
    ensures At(ObservedAll(h, views).previous, key) == At(h.previous, key)
    ensures At(ObservedAll(h, views).baseline, key) == At(h.baseline, key)
  {
    if views != [] { Unobserved(h, views[..|views| - 1], key); }
  }

  /** Observing the same views again changes nothing. */
  lemma {:induction false} ObservedAgain(h: History, views: seq<(OutputKey, DesktopId)>)
    requires forall i | 0 <= i < |views| :: views[i].0 in h.baseline && h.baseline[views[i].0] == views[i].1
    ensures ObservedAll(h, views) == h
  {
    if views != [] { ObservedAgain(h, views[..|views| - 1]); }
  }

  /** What one topology signal does to the history: the views are observed before and after the
      displacement pass, then entries that no longer resolve are dropped. */
  function Signalled(h: History, before: seq<(OutputKey, DesktopId)>, after: seq<(OutputKey, DesktopId)>, keys: set<OutputKey>,
                     live: seq<DesktopId>, scope: Lists): History {
    Validated(Connected(ObservedAll(Connected(ObservedAll(h, before), keys), after), keys), live, scope)
  }

  /** A signal over unchanged views: the output is observed at its view, and remembers the one
      before it when that has changed and still resolves. */
  lemma SignalRemembers(h: History, views: seq<(OutputKey, DesktopId)>, i: nat, keys: set<OutputKey>, live: seq<DesktopId>, scope: Lists)
    requires DistinctKeys(views) && i < |views| && forall j | 0 <= j < |views| :: views[j].0 in keys
    ensures var (key, view) := views[i];
            var after := Signalled(h, views, views, keys, live, scope);
            && At(after.baseline, key) == Some(view)
            && (key in h.baseline && h.baseline[key] != view && h.baseline[key] in live && h.baseline[key] in WorkspaceLists.At(scope, key) ==>
                  At(after.previous, key) == Some(h.baseline[key]))
  {
    var one := Connected(ObservedAll(h, views), keys);
    forall j | 0 <= j < |views|
      ensures views[j].0 in one.baseline && one.baseline[views[j].0] == views[j].1
    {
      ObservedOnce(h, views, j);
    }
    ObservedOnce(h, views, i);
    ObservedAgain(one, views);
  }

  /** An output that a signal finds gone comes back with no view remembered, whatever it shows then. */
  lemma ReturnsFresh(h: History, before: seq<(OutputKey, DesktopId)>, after: seq<(OutputKey, DesktopId)>, keys: set<OutputKey>,
                     live: seq<DesktopId>, scope: Lists, key: OutputKey, view: DesktopId)
    requires key !in keys
    ensures var back := Observed(Signalled(h, before, after, keys, live, scope), key, view);
            At(back.previous, key) == None && At(back.baseline, key) == Some(view)
  {
  }

  /** Only entries whose desktop is live and in its output's scope survive. */
  function Validated(h: History, live: seq<DesktopId>, scope: Lists): History {
    h.(previous := map key | key in h.previous && h.previous[key] in live && h.previous[key] in WorkspaceLists.At(scope, key) :: h.previous[key])
  }
}

module Migration {
  import opened Prelude
  import opened SessionKeys
  import opened WorkspaceLists

  /** Put x directly after the given desktop, or at the end when that is not listed. */
  function InsertAfter(s: seq<DesktopId>, at: DesktopId, x: DesktopId): seq<DesktopId> {
    if s == [] then [x]
    else if s[0] == at then [s[0], x] + s[1..]
    else [s[0]] + InsertAfter(s[1..], at, x)
  }

  lemma {:induction false} InsertAfterSplits(s: seq<DesktopId>, at: DesktopId, x: DesktopId, i: nat)
    requires i < |s| && s[i] == at && at !in s[..i]
    ensures InsertAfter(s, at, x) == s[..i + 1] + [x] + s[i + 1..]
  {
    if i > 0 {
      assert s[0] in s[..i];
      assert s[1..][..i - 1] == s[..i][1..];
      InsertAfterSplits(s[1..], at, x, i - 1);
      assert [s[0]] + s[1..][..i] == s[..i + 1];
    } else {
      assert s[..1] == [s[0]];
    }
  }

  lemma {:induction false} InsertAfterAbsent(s: seq<DesktopId>, at: DesktopId, x: DesktopId)
    requires at !in s
    ensures InsertAfter(s, at, x) == s + [x]
  {
    if s != [] { InsertAfterAbsent(s[1..], at, x); }
  }

  /** x directly follows the given desktop. */
  ghost predicate Follows(s: seq<DesktopId>, at: DesktopId, x: DesktopId) {
    exists i: nat :: i + 1 < |s| && s[i] == at && s[i + 1] == x
  }

  lemma {:induction false} InsertAfterMembers(s: seq<DesktopId>, at: DesktopId, x: DesktopId)
    ensures forall y :: y in InsertAfter(s, at, x) <==> y in s || y == x
    ensures x !in s && NoDup(s) ==> NoDup(InsertAfter(s, at, x))
  {
    if s != [] {
      assert s == [s[0]] + s[1..];
      InsertAfterMembers(s[1..], at, x);
      assert NoDup(s) ==> s[0] !in s[1..];
    }
  }

  lemma {:induction false} InsertAfterKeeps(s: seq<DesktopId>, at: DesktopId, x: DesktopId)
    requires x !in s && x != at
    ensures Without(InsertAfter(s, at, x), [x]) == s
  {
    var r := InsertAfter(s, at, x);
    if s == [] {
      WithoutSingle(x, [x]);
    } else if s[0] == at {
      WithoutNone(s[1..], [x]);
      var t := [x] + s[1..];
      assert r == [at] + t && t[1..] == s[1..] && r[1..] == t;
      assert Without(t, [x]) == s[1..];
    } else {
      InsertAfterKeeps(s[1..], at, x);
      assert r[1..] == InsertAfter(s[1..], at, x);
    }
  }

  lemma {:induction false} InsertAfterFollows(s: seq<DesktopId>, at: DesktopId, x: DesktopId) returns (i: nat)
    requires at in s
    ensures var r := InsertAfter(s, at, x); i + 1 < |r| && r[i] == at && r[i + 1] == x
  {
    if s[0] == at {
      i := 0;
    } else {
      i := InsertAfterFollows(s[1..], at, x);
      i := i + 1;
    }
  }

  /** The inserted desktop follows the view directly and every other keeps its place in the order. */
  lemma InsertAfterPlaces(s: seq<DesktopId>, at: DesktopId, x: DesktopId)
    requires x !in s && x != at
    ensures Without(InsertAfter(s, at, x), [x]) == s
    ensures at in s ==> Follows(InsertAfter(s, at, x), at, x)
  {
    InsertAfterKeeps(s, at, x);
    if at in s {
      var i := InsertAfterFollows(s, at, x);
    }
  }

  /** The lists after a migration: out of the source list, into the target's behind its view. */
  function Migrated(lists: Lists, id: DesktopId, source: OutputKey, target: OutputKey, view: DesktopId): Lists {
    lists[source := Without(At(lists, source), [id])][target := InsertAfter(At(lists, target), view, id)]
  }

  /** A migration keeps the partition and moves exactly the one desktop. */
  lemma MigratedKeeps(lists: Lists, id: DesktopId, source: OutputKey, target: OutputKey, view: DesktopId)
    requires Partition(lists) && source != target && id in At(lists, source) && view != id
    ensures var after := Migrated(lists, id, source, target, view);
            && Partition(after) && OnlyOn(after, id, target)
            && (forall x :: x in Listed(after) <==> x in Listed(lists))
            && Without(after[target], [id]) == At(lists, target)
            && (view in At(lists, target) ==> Follows(after[target], view, id))
  {
    hide InsertAfter, Follows, Listed, Partition, OnlyOn;
    OneOwner(lists, id, source, target);
    InsertAfterPlaces(At(lists, target), view, id);
    MigratedListed(lists, id, source, target, view);
    MigratedPartition(lists, id, source, target, view);
  }

  lemma OneOwner(lists: Lists, id: DesktopId, source: OutputKey, target: OutputKey)
    requires Partition(lists) && source != target && id in At(lists, source)
    ensures id !in At(lists, target)
  {
  }

  /** Each desktop is on one list still, the migrated one on the target's. */
  lemma MigratedPartition(lists: Lists, id: DesktopId, source: OutputKey, target: OutputKey, view: DesktopId)
    requires Partition(lists) && source != target && id in At(lists, source)
    ensures Partition(Migrated(lists, id, source, target, view)) && OnlyOn(Migrated(lists, id, source, target, view), id, target)
  {
    hide InsertAfter, Without;
    var after := Migrated(lists, id, source, target, view);
    InsertAfterMembers(At(lists, target), view, id);
    WithoutMembers(lists[source], [id]);
    forall k, x | k in after && x in after[k]
      ensures if x == id then k == target else x in At(lists, k)
    {
    }
  }

  /** The same desktops are listed. */
  lemma MigratedListed(lists: Lists, id: DesktopId, source: OutputKey, target: OutputKey, view: DesktopId)
    requires Partition(lists) && source != target && id in At(lists, source)
    ensures forall x :: x in Listed(Migrated(lists, id, source, target, view)) <==> x in Listed(lists)
  {
    hide InsertAfter;
    var after := Migrated(lists, id, source, target, view);
    InsertAfterMembers(At(lists, target), view, id);
    WithoutMembers(lists[source], [id]);
    forall x
      ensures x in Listed(after) <==> x in Listed(lists)
    {
      if x in Listed(lists) {
        var k :| k in lists && x in lists[k];
        var k' := if x == id then target else k;
        assert k' in after && x in after[k'];
      }
      if x in Listed(after) {
        var k :| k in after && x in after[k];
        var k' := if x == id then source else k;
        assert k' in lists && x in lists[k'];
      }
    }
  }

  datatype RefillRule = LastRemaining | MostRecentlyUsed

  /** The desktop the source output shows next. */
  function Refill(rule: RefillRule, previous: Option<DesktopId>, remaining: seq<DesktopId>): Option<DesktopId> {
    if rule.MostRecentlyUsed? && previous.Some? && previous.value in remaining then previous
    else if remaining == [] then None else Some(remaining[|remaining| - 1])
  }
}

module Ring {

  /** The neighbour of a position, wrapping round. */
  function Step(n: nat, at: nat, delta: int): (r: nat)
    requires at < n
    ensures r < n
  {
    (at + delta + n) % n
  }

  function Steps(n: nat, at: nat, k: nat): (r: nat)
    requires at < n
    ensures r < n
  {
    if k == 0 then at else Step(n, Steps(n, at, k - 1), 1)
  }

  lemma {:induction false} AtLeastOnce(d: nat, n: nat)
    requires d >= 1
    ensures d * n >= n
  {
    if d > 1 { AtLeastOnce(d - 1, n); }
  }

  lemma SameQuotient(p: int, q: int, n: nat, s: nat, r: nat)
    requires r < n && s < n && p * n + s == q * n + r
    ensures p == q
  {
    assert (p - q) * n == p * n - q * n;
    if p > q {
      AtLeastOnce(p - q, n);
    } else if p < q {
      AtLeastOnce(q - p, n);
    }
  }

  lemma Remainder(x: nat, n: nat, q: nat, r: nat)
    requires r < n && x == q * n + r
    ensures x % n == r
  {
    SameQuotient(x / n, q, n, x % n, r);
  }

  lemma StepIs(n: nat, at: nat)
    requires at < n
    ensures Step(n, at, 1) == if at + 1 == n then 0 else at + 1
    ensures Step(n, at, -1) == if at == 0 then n - 1 else at - 1
  {
    if at + 1 == n { Remainder(at + 1 + n, n, 2, 0); } else { Remainder(at + 1 + n, n, 1, at + 1); }
    if at == 0 { Remainder(at - 1 + n, n, 0, n - 1); } else { Remainder(at - 1 + n, n, 1, at - 1); }
  }

  /** One step back undoes one step forward, and the other way round. */
  lemma StepBack(n: nat, at: nat)
    requires at < n
    ensures Step(n, Step(n, at, 1), -1) == at && Step(n, Step(n, at, -1), 1) == at
  {
    StepIs(n, at);
    StepIs(n, Step(n, at, 1));
    StepIs(n, Step(n, at, -1));
  }

  lemma {:induction false} StepsAt(n: nat, at: nat, k: nat)
    requires at < n && k <= n
    ensures Steps(n, at, k) == if at + k < n then at + k else at + k - n
  {
    if k > 0 {
      StepsAt(n, at, k - 1);
      StepIs(n, Steps(n, at, k - 1));
    }
  }

  /** Once round the ring visits every position exactly once and comes back. */
  lemma RingVisitsAll(n: nat, at: nat, goal: nat) returns (k: nat)
    requires at < n && goal < n
    ensures k < n && Steps(n, at, k) == goal
    ensures forall other: nat | other < n && Steps(n, at, other) == goal :: other == k
    ensures Steps(n, at, n) == at
  {
    k := if goal >= at then goal - at else goal + n - at;
    StepsAt(n, at, k);
    StepsAt(n, at, n);
    forall other: nat | other < n && Steps(n, at, other) == goal
      ensures other == k
    {
      StepsAt(n, at, other);
    }
  }
}
