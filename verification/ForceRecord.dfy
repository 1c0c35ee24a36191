// What Force has taken from other applications, and the durable list that must
// name it until it has been given back.

module ForceRecord {
  import opened Prelude
  import opened Shortcuts
  import opened ShortcutStore

  /** The actions a foreign write has changed and no later write has put back to the
      defaults the daemon last reported for them. */
  function Outstanding(log: seq<Event>): set<ActionId> {
    if log == [] then {}
    else
      After(Outstanding(log[..|log| - 1]), log[|log| - 1])
  }

  function After(before: set<ActionId>, e: Event): set<ActionId> {
    if e.Assign? then before
    else if e.reported == Some(e.keys) then before - {e.id}
    else before + {e.id}
  }

  /** Every outstanding action outside the project's own prefix is on the durable list. */
  ghost predicate Covered(log: seq<Event>, list: seq<ActionId>) {
    forall id <- Outstanding(log) :: ProjectOwned(id) || id in list
  }

  /** The n-th write took from another program and nothing has given it back since. */
  ghost predicate Lost(log: seq<Event>, n: int) {
    && 0 <= n < |log| && log[n].Foreign? && log[n].reported != Some(log[n].keys)
    && forall m | n < m < |log| && log[m].Foreign? && log[m].id == log[n].id :: log[m].reported != Some(log[m].keys)
  }

  /** Whatever was taken and not given back is on the list, unless the component is kwin and the name begins
      with the project's prefix. */
  ghost predicate Recorded(log: seq<Event>, list: seq<ActionId>) {
    forall n | Lost(log, n) :: log[n].id in list || (log[n].id.component == "kwin" && "omnitiler-" <= log[n].id.action)
  }

  lemma {:induction false} OutstandingIsLost(log: seq<Event>)
    ensures forall id :: id in Outstanding(log) <==> exists n :: Lost(log, n) && log[n].id == id
    decreases |log|
  {
    if log != [] {
      var front, last := log[..|log| - 1], log[|log| - 1];
      OutstandingIsLost(front);
      forall id
        ensures id in Outstanding(log) <==> exists n :: Lost(log, n) && log[n].id == id
      {
        LostNext(front, last, id);
        assert log == front + [last];
      }
    }
  }

  lemma LostBefore(front: seq<Event>, e: Event, n: int)
    requires 0 <= n < |front|
    ensures Lost(front + [e], n) <==> Lost(front, n) && (e.Foreign? && e.id == front[n].id ==> e.reported != Some(e.keys))
  {
    var log := front + [e];
    assert log[|front|] == e && forall m | 0 <= m < |front| :: log[m] == front[m];
  }

  lemma LostNext(front: seq<Event>, e: Event, id: ActionId)
    ensures (exists n :: Lost(front + [e], n) && (front + [e])[n].id == id) <==>
              if e.Foreign? && e.id == id then e.reported != Some(e.keys) else exists n :: Lost(front, n) && front[n].id == id
  {
    var log := front + [e];
    forall n | 0 <= n < |front|
      ensures log[n] == front[n]
      ensures Lost(log, n) <==> Lost(front, n) && (e.Foreign? && e.id == front[n].id ==> e.reported != Some(e.keys))
    {
      LostBefore(front, e, n);
    }
    assert log[|front|] == e;
    if e.Foreign? && e.id == id && e.reported != Some(e.keys) {
      assert Lost(log, |front|);
    }
    if !(e.Foreign? && e.id == id) {
      if n :| Lost(front, n) && front[n].id == id {
        assert Lost(log, n);
      }
      if n :| Lost(log, n) && log[n].id == id {
        assert Lost(front, n);
      }
    }
  }

  /** The record law, read off the log alone. */
  lemma CoveredIsRecorded(log: seq<Event>, list: seq<ActionId>)
    ensures Covered(log, list) <==> Recorded(log, list)
  {
    OutstandingIsLost(log);
    if Covered(log, list) {
      forall n | Lost(log, n)
        ensures log[n].id in list || (log[n].id.component == "kwin" && "omnitiler-" <= log[n].id.action)
      {
        assert log[n].id in Outstanding(log);
      }
    }
    if Recorded(log, list) {
      forall id | id in Outstanding(log)
        ensures ProjectOwned(id) || id in list
      {
        var n :| Lost(log, n) && log[n].id == id;
      }
    }
  }

  /** The targets are the listed actions whose component is not kwin or whose name lacks the project's prefix. */
  lemma TargetsAre(list: seq<ActionId>)
    ensures forall id :: id in Targets(list) <==> id in list && !(id.component == "kwin" && "omnitiler-" <= id.action)
    ensures |Targets(list)| == |list| <==> forall id <- list :: !(id.component == "kwin" && "omnitiler-" <= id.action)
  {
    FilterMembers((id: ActionId) => !ProjectOwned(id), list);
    if forall id <- list :: !(id.component == "kwin" && "omnitiler-" <= id.action) {
      FilterAll((id: ActionId) => !ProjectOwned(id), list);
    }
    if id :| id in list && id.component == "kwin" && "omnitiler-" <= id.action {
      FilterDrops((id: ActionId) => !ProjectOwned(id), list, id);
    }
  }

  lemma {:induction false} FilterDrops<T(!new)>(p: T -> bool, s: seq<T>, x: T)
    requires x in s && !p(x)
    ensures |Filter(p, s)| < |s|
  {
    if s[0] == x {
      FilterMembers(p, s[1..]);
    } else {
      FilterDrops(p, s[1..], x);
    }
  }

  /** The listed actions Revert restores, in list order: own actions stay cleared. */
  function Targets(list: seq<ActionId>): seq<ActionId> {
    Filter((id: ActionId) => !ProjectOwned(id), list)
  }

  /** The given actions at their defaults, everything else as it was. */
  function Restored(db: Db, ids: seq<ActionId>): Db {
    map id | id in db :: if id in ids then db[id].(active := db[id].defaults) else db[id]
  }

  /** The first listing of an action in a keyed answer. */
  function FirstListing(holders: seq<Holder>, id: ActionId): Option<Holder> {
    if holders == [] then None
    else if holders[0].id == id then Some(holders[0])
    else FirstListing(holders[1..], id)
  }

  /** A clear that had just re-read its holder: it replaces the list it was told by exactly
      that list without the required keys, and the holder did have one of them. */
  ghost predicate RereadClear(e: Event, required: seq<Key>) {
    && e.Foreign? && e.probe.Probed?
    && var live := FirstListing(e.probe.holders, e.id);
       && live.Some?
       && e.keys == Remainder(live.value.active, required)
       && Conflicting(live.value.active, required) != []
  }

  /** A restore: the list written is the one just reported as that action's defaults. */
  ghost predicate IsRestore(e: Event) {
    e.Foreign? && e.reported == Some(e.keys)
  }

  lemma OutstandingStep(log: seq<Event>, e: Event)
    ensures Outstanding(log + [e]) == After(Outstanding(log), e)
  {
    assert (log + [e])[..|log|] == log;
  }

  lemma {:induction false} OutstandingAfterAssigns(log: seq<Event>, done: seq<Event>)
    requires forall e <- done :: e.Assign?
    ensures Outstanding(log + done) == Outstanding(log)
    decreases |done|
  {
    if done == [] {
      assert log + done == log;
    } else {
      var front := done[..|done| - 1];
      OutstandingAfterAssigns(log, front);
      assert log + done == (log + front) + [done[|done| - 1]];
      OutstandingStep(log + front, done[|done| - 1]);
    }
  }

  lemma TargetsStep(list: seq<ActionId>, i: nat)
    requires i < |list|
    ensures Targets(list[..i + 1]) == if ProjectOwned(list[i]) then Targets(list[..i]) else Targets(list[..i]) + [list[i]]
    ensures Targets(list[..i + 1]) <= Targets(list)
  {
    var p := (id: ActionId) => !ProjectOwned(id);
    assert list[..i + 1] == list[..i] + [list[i]];
    FilterConcat(p, list[..i], [list[i]]);
    assert list == list[..i + 1] + list[i + 1..];
    FilterConcat(p, list[..i + 1], list[i + 1..]);
  }

  /** The loop's place in the list and its place among the targets move together. */
  lemma TargetsPrefix(list: seq<ActionId>, i: nat, n: nat)
    requires i < |list| && n <= |Targets(list)| && Targets(list[..i]) == Targets(list)[..n]
    ensures ProjectOwned(list[i]) ==> Targets(list[..i + 1]) == Targets(list)[..n]
    ensures !ProjectOwned(list[i]) ==>
              && n < |Targets(list)| && Targets(list)[n] == list[i]
              && Targets(list[..i + 1]) == Targets(list)[..n + 1] == Targets(list)[..n] + [list[i]]
  {
    TargetsStep(list, i);
    if !ProjectOwned(list[i]) {
      var next := Targets(list[..i + 1]);
      assert next == Targets(list)[..n] + [list[i]] && |next| == n + 1 && next[n] == list[i];
    }
  }

  lemma RestoredStep(db: Db, ids: seq<ActionId>, id: ActionId)
    ensures id in db ==> Put(Restored(db, ids), id, db[id].defaults) == Restored(db, ids + [id])
    ensures id !in db ==> Restored(db, ids) == Restored(db, ids + [id])
  {
  }

  /** Re-running an interrupted Revert ends where one uninterrupted Revert ends. */
  lemma InterruptedRevertResumes(db: Db, list: seq<ActionId>, k: nat)
    requires k <= |Targets(list)|
    ensures Restored(Restored(db, Targets(list)[..k]), Targets(list)) == Restored(db, Targets(list))
  {
    var cut := Restored(db, Targets(list)[..k]);
    assert forall id :: id in cut ==> id in db && cut[id].defaults == db[id].defaults;
  }
}
