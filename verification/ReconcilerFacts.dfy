// What the reconciler's writes and readings amount to, as facts about values.

module ReconcilerFacts {
  import opened Prelude
  import opened Shortcuts
  import opened ShortcutStore
  import opened HolderScan
  import opened HolderOrder
  import opened Preflight
  import opened ApplyPlan
  import opened ForceRecord

  /** How far a call got before it stopped. */
  datatype Stage = Confirming | Persisting | Preflighting | Writing | Done

  datatype Result = Result(ok: bool, stage: Stage, writes: nat)

  /** A row's state in the final read that Apply accepts. */
  predicate RowSettled(cfg: Config, draft: Draft, entry: CatalogEntry, kept: seq<Key>, found: Lookup) {
    if entry.id in draft.disabled then
      found.Missing? || (found.One? && found.tuple.active == [])
    else
      found.One? && found.tuple.active == if draft.authentic then ExpectedPost(cfg, entry) else kept
  }

  predicate LockSettled(row: ConflictRow, found: Lookup) {
    found.One? && !HoldsAny(found.tuple.active, row.foreignPre) && forall k <- row.target :: k in found.tuple.active
  }

  /** Authentic rows at their posts, Keep rows at their preflight image, present disabled rows
      empty, and the lock, when in scope, without its old chords and with all of the target. */
  predicate FinalImage(cfg: Config, draft: Draft, kept: seq<seq<Key>>, final: seq<Tuple>)
    requires cfg.table != [] && |kept| == |cfg.catalog|
  {
    && (forall i | 0 <= i < |cfg.catalog| :: RowSettled(cfg, draft, cfg.catalog[i], kept[i], Find(final, cfg.catalog[i].id)))
    && (FocusAuthentic(cfg, draft) ==> LockSettled(LockRow(cfg), Find(final, LockRow(cfg).foreign)))
  }

  /** The enumeration lists the action exactly once, with those keys. */
  ghost predicate ListedOnce(ts: seq<Tuple>, id: ActionId, keys: seq<Key>) {
    exists i :: 0 <= i < |ts| && ts[i].id == id && ts[i].active == keys && forall j | 0 <= j < |ts| && j != i :: ts[j].id != id
  }

  ghost predicate NotListed(ts: seq<Tuple>, id: ActionId) {
    forall i | 0 <= i < |ts| :: ts[i].id != id
  }

  /** A disabled row is absent or empty; an enabled one is there once, where the tables want it in an
      Authentic draft and as it was in one that keeps. */
  ghost predicate ShowsRow(cfg: Config, draft: Draft, entry: CatalogEntry, kept: seq<Key>, final: seq<Tuple>) {
    if entry.id in draft.disabled then NotListed(final, entry.id) || ListedOnce(final, entry.id, [])
    else if draft.authentic then exists keys :: ListedOnce(final, entry.id, keys) && AtPost(cfg, entry, keys)
    else ListedOnce(final, entry.id, kept)
  }

  /** Lock Session is there once, without an old chord and with every target chord. */
  ghost predicate ShowsLock(row: ConflictRow, final: seq<Tuple>) {
    exists keys :: ListedOnce(final, row.foreign, keys) && (forall k <- keys :: k !in row.foreignPre) && forall k <- row.target :: k in keys
  }

  /** What an accepted finish shows, read off configuration and enumeration. */
  ghost predicate ShowsDraft(cfg: Config, draft: Draft, kept: seq<seq<Key>>, final: seq<Tuple>)
    requires cfg.table != [] && |kept| == |cfg.catalog|
  {
    && (forall i | 0 <= i < |cfg.catalog| :: ShowsRow(cfg, draft, cfg.catalog[i], kept[i], final))
    && (draft.authentic && cfg.table[0].project !in draft.disabled ==> ShowsLock(cfg.table[0], final))
  }

  lemma {:induction false} FoundIs(ts: seq<Tuple>, id: ActionId)
    ensures Find(ts, id).Missing? <==> NotListed(ts, id)
    ensures Find(ts, id).One? ==> ListedOnce(ts, id, Find(ts, id).tuple.active)
    ensures forall keys :: ListedOnce(ts, id, keys) ==> Find(ts, id).One? && Find(ts, id).tuple.active == keys
    decreases |ts|
  {
    if ts != [] {
      var front, last := ts[..|ts| - 1], ts[|ts| - 1];
      FoundIs(front, id);
      assert ts == front + [last];
      ListedNext(front, last, id);
    }
  }

  lemma ListedNext(front: seq<Tuple>, last: Tuple, id: ActionId)
    ensures NotListed(front + [last], id) <==> NotListed(front, id) && last.id != id
    ensures forall keys :: ListedOnce(front + [last], id, keys) <==>
              if last.id == id then NotListed(front, id) && last.active == keys else ListedOnce(front, id, keys)
  {
    var ts := front + [last];
    forall keys
      ensures ListedOnce(ts, id, keys) <==> if last.id == id then NotListed(front, id) && last.active == keys else ListedOnce(front, id, keys)
    {
      if last.id != id && ListedOnce(front, id, keys) {
        var i :| 0 <= i < |front| && front[i].id == id && front[i].active == keys && forall j | 0 <= j < |front| && j != i :: front[j].id != id;
        assert ts[i] == front[i];
      }
      if last.id == id && NotListed(front, id) && last.active == keys {
        assert ts[|front|] == last;
      }
      if ListedOnce(ts, id, keys) {
        var i :| 0 <= i < |ts| && ts[i].id == id && ts[i].active == keys && forall j | 0 <= j < |ts| && j != i :: ts[j].id != id;
        assert ts[|front|] == last && forall j | 0 <= j < |front| :: ts[j] == front[j];
        if i < |front| {
          assert front[i] == ts[i];
        }
      }
    }
    assert ts[|front|] == last && forall j | 0 <= j < |front| :: ts[j] == front[j];
  }

  /** The finish accepts exactly the enumerations that show the draft. */
  lemma FinalImageShows(cfg: Config, draft: Draft, kept: seq<seq<Key>>, final: seq<Tuple>)
    requires cfg.table != [] && |kept| == |cfg.catalog|
    ensures FinalImage(cfg, draft, kept, final) <==> ShowsDraft(cfg, draft, kept, final)
  {
    hide AtPost, ExpectedPost, ListedOnce, NotListed;
    forall i | 0 <= i < |cfg.catalog|
      ensures RowSettled(cfg, draft, cfg.catalog[i], kept[i], Find(final, cfg.catalog[i].id)) <==> ShowsRow(cfg, draft, cfg.catalog[i], kept[i], final)
    {
      RowShown(cfg, draft, cfg.catalog[i], kept[i], final);
    }
    LockShown(cfg.table[0], final);
  }

  lemma RowShown(cfg: Config, draft: Draft, entry: CatalogEntry, kept: seq<Key>, final: seq<Tuple>)
    ensures RowSettled(cfg, draft, entry, kept, Find(final, entry.id)) <==> ShowsRow(cfg, draft, entry, kept, final)
  {
    hide AtPost, ExpectedPost, ListedOnce, NotListed;
    FoundIs(final, entry.id);
    var found := Find(final, entry.id);
    if found.One? {
      ExpectedPostIsAtPost(cfg, entry, found.tuple.active);
    }
  }

  lemma LockShown(row: ConflictRow, final: seq<Tuple>)
    ensures LockSettled(row, Find(final, row.foreign)) <==> ShowsLock(row, final)
  {
    hide ListedOnce, NotListed;
    FoundIs(final, row.foreign);
  }

  /** The state where the draft wants it: disabled rows that are there empty, enabled ones at their posts in an
      Authentic draft and as they were in one that keeps. */
  ghost predicate HoldsDraft(cfg: Config, draft: Draft, before: Db, after: Db) {
    forall entry <- cfg.catalog | entry.id in before ::
      && entry.id in after
      && (entry.id in draft.disabled ==> after[entry.id].active == [])
      && (entry.id !in draft.disabled && draft.authentic ==> AtPost(cfg, entry, after[entry.id].active))
      && (entry.id !in draft.disabled && !draft.authentic ==> after[entry.id].active == before[entry.id].active)
  }

  lemma PlanHoldsDraft(cfg: Config, draft: Draft, db: Db)
    requires WellFormed(cfg)
    ensures HoldsDraft(cfg, draft, db, Run(db, Plan(cfg, draft, db)))
  {
    assert cfg.table != [];
    hide WellFormed, Run, Plan, AtPost;
    forall entry | entry in cfg.catalog && entry.id in db
      ensures var after := Run(db, Plan(cfg, draft, db));
              && entry.id in after
              && (entry.id in draft.disabled ==> after[entry.id].active == [])
              && (entry.id !in draft.disabled && draft.authentic ==> AtPost(cfg, entry, after[entry.id].active))
              && (entry.id !in draft.disabled && !draft.authentic ==> after[entry.id].active == db[entry.id].active)
    {
      var i :| 0 <= i < |cfg.catalog| && cfg.catalog[i] == entry;
      PlanReachesRow(cfg, draft, db, i);
    }
  }

  /** The durable list with the rows' actions that are not on it yet. */
  function Union(list: seq<ActionId>, rows: seq<ClearRow>): seq<ActionId> {
    if rows == [] then list
    else
      var merged := Union(list, rows[..|rows| - 1]);
      var id := rows[|rows| - 1].id;
      if id in merged then merged else merged + [id]
  }

  ghost predicate RowFor(rows: seq<ClearRow>, id: ActionId) {
    exists row <- rows :: row.id == id
  }

  /** The old list and after it, each once, the rows' actions that were not on it. */
  ghost predicate Joined(list: seq<ActionId>, merged: seq<ActionId>, rows: seq<ClearRow>) {
    && list <= merged && NoDup(merged[|list|..])
    && forall id :: id in merged[|list|..] <==> id !in list && RowFor(rows, id)
  }

  lemma JoinedNone(list: seq<ActionId>)
    ensures Joined(list, list, [])
  {
  }

  /** One more row's action joins the list unless it is on it. */
  lemma JoinedStep(list: seq<ActionId>, merged: seq<ActionId>, rows: seq<ClearRow>, i: nat)
    requires i < |rows| && Joined(list, merged, rows[..i])
    ensures var id := rows[i].id; Joined(list, if id in merged then merged else merged + [id], rows[..i + 1])
  {
    var id, more := rows[i].id, merged[|list|..];
    assert rows[..i + 1] == rows[..i] + [rows[i]];
    assert merged == list + more;
    if id !in merged {
      assert (merged + [id])[|list|..] == more + [id];
    }
    forall x
      ensures RowFor(rows[..i + 1], x) <==> x == id || RowFor(rows[..i], x)
    {
      if row :| row in rows[..i] && row.id == x {
        assert row in rows[..i + 1];
      }
      assert rows[i] in rows[..i + 1];
    }
  }

  lemma JoinedCovers(list: seq<ActionId>, merged: seq<ActionId>, rows: seq<ClearRow>)
    requires Joined(list, merged, rows)
    ensures list <= merged && forall row <- rows :: row.id in merged
  {
    forall row | row in rows
      ensures row.id in merged
    {
      assert RowFor(rows, row.id);
      assert row.id in list || row.id in merged[|list|..];
    }
  }

  /** A list the durable store takes. */
  predicate Storable(list: seq<ActionId>) {
    |list| <= MAX_TUPLES && forall id <- list :: IdValid(id)
  }

  /** The writes of one call: project rows and the lock, each at most once. */
  ghost predicate ProjectWrites(cfg: Config, draft: Draft, done: seq<Event>)
    requires cfg.table != []
  {
    && (forall e <- done :: e.Assign? && (InCatalog(cfg, e.id) || (e.id == LockRow(cfg).foreign && FocusAuthentic(cfg, draft))))
    && (forall i, j :: 0 <= i < j < |done| ==> done[i].id != done[j].id)
    && |done| <= |cfg.catalog| + 1
  }

  predicate RowRestorable(db: Db, id: ActionId) {
    IdValid(id) && (ProjectOwned(id) || id in db)
  }

  /** Every listed action is well-formed, and there unless it stays cleared anyway. */
  ghost predicate Restorable(db: Db, list: seq<ActionId>) {
    forall id <- list :: RowRestorable(db, id)
  }

  /** A prefix of the restores, in list order. */
  ghost predicate RestoresInOrder(done: seq<Event>, targets: seq<ActionId>) {
    |done| <= |targets| && forall j | 0 <= j < |done| :: done[j].id == targets[j] && IsRestore(done[j])
  }

  /** What one Revert comes to: a prefix of the listed actions outside the own prefix, each set to its
      reported defaults, in list order; and the list whole until every such action was restored. */
  ghost predicate Reverted(quiet: bool, start: seq<Event>, now: seq<Event>, before: Db, after: Db, list: seq<ActionId>, left: seq<ActionId>) {
    && start <= now && RestoresInOrder(now[|start|..], Targets(list))
    && (left == list || (left == [] && |now| == |start| + |Targets(list)|))
    && (quiet ==> after == Restored(before, Targets(list)[..|now| - |start|]))
  }

  /** What a Revert may do, read off names and lists: it writes no kwin action with the project's prefix and
      nothing that is not listed, and each write sets the defaults just reported. On an undisturbed daemon what
      it may not write is as it was; and when it succeeds, every listed action that is there, unless it is kwin's
      with that prefix, holds its defaults. */
  ghost predicate GivesBack(quiet: bool, done: seq<Event>, before: Db, after: Db, list: seq<ActionId>, ok: bool) {
    && (forall e <- done :: e.Foreign? && e.reported == Some(e.keys) && e.id in list && !(e.id.component == "kwin" && "omnitiler-" <= e.id.action))
    && (ok ==> forall id <- list | !(id.component == "kwin" && "omnitiler-" <= id.action) :: exists e <- done :: e.id == id)
    && (quiet ==> forall id :: id in after <==> id in before)
    && (quiet ==> forall id <- before | id !in list || (id.component == "kwin" && "omnitiler-" <= id.action) :: id in after && after[id] == before[id])
    && (quiet ==> forall id <- before :: id in after && after[id].defaults == before[id].defaults && after[id].names == before[id].names)
    && (quiet && ok ==> forall id <- list | id in before && !(id.component == "kwin" && "omnitiler-" <= id.action) ::
          id in after && after[id].active == before[id].defaults)
  }

  lemma RevertGivesBack(quiet: bool, start: seq<Event>, now: seq<Event>, before: Db, after: Db, list: seq<ActionId>, left: seq<ActionId>, ok: bool)
    requires Reverted(quiet, start, now, before, after, list, left) && (ok ==> left == [])
    ensures GivesBack(quiet, now[|start|..], before, after, list, ok)
  {
    var done, targets := now[|start|..], Targets(list);
    TargetsAre(list);
    forall e | e in done
      ensures e.Foreign? && e.reported == Some(e.keys) && e.id in list && !(e.id.component == "kwin" && "omnitiler-" <= e.id.action)
    {
      var j :| 0 <= j < |done| && done[j] == e;
      assert targets[j] in targets;
    }
    if ok {
      assert list == [] || |done| == |targets|;
      assert targets[..|done|] == targets;
      forall id | id in list && !(id.component == "kwin" && "omnitiler-" <= id.action)
        ensures exists e <- done :: e.id == id
      {
        var j :| 0 <= j < |targets| && targets[j] == id;
        assert done[j] in done;
      }
    }
    assert forall id <- targets[..|done|] :: id in targets;
  }

  /** Every listed action that is there holds its defaults, unless it is kwin's with the project's prefix; all
      else is as it was. */
  ghost predicate GivenBack(before: Db, after: Db, list: seq<ActionId>) {
    && (forall id :: id in after <==> id in before)
    && forall id <- before :: id in after
         && if id in list && !(id.component == "kwin" && "omnitiler-" <= id.action) then after[id].active == before[id].defaults
            else after[id] == before[id]
  }

  lemma RestoredIsGivenBack(db: Db, list: seq<ActionId>)
    ensures GivenBack(db, Restored(db, Targets(list)), list)
  {
    TargetsAre(list);
  }

  lemma NothingGivenBack(quiet: bool, log: seq<Event>, db: Db, after: Db, list: seq<ActionId>)
    requires quiet ==> after == db
    ensures GivesBack(quiet, log[|log|..], db, after, list, false) && (list == [] ==> GivesBack(quiet, log[|log|..], db, after, list, true))
  {
    assert log[|log|..] == [];
  }

  lemma NothingReverted(quiet: bool, start: seq<Event>, before: Db, after: Db, list: seq<ActionId>)
    requires quiet ==> after == before
    ensures Reverted(quiet, start, start, before, after, list, list)
  {
    assert start[|start|..] == [];
    assert Restored(before, Targets(list)[..0]) == before;
  }

  lemma RevertedFrom(quiet: bool, start: seq<Event>, now: seq<Event>, before: Db, mid: Db, after: Db, list: seq<ActionId>, left: seq<ActionId>)
    requires Reverted(quiet, start, now, mid, after, list, left) && (quiet ==> mid == before)
    ensures Reverted(quiet, start, now, before, after, list, left)
  {
  }

  lemma NoneRestored(start: seq<Event>, db: Db, list: seq<ActionId>)
    ensures Targets(list[..0]) == Targets(list)[..0] && Restored(db, Targets(list)[..0]) == db
    ensures RestoresInOrder(start[|start|..], Targets(list)) && Returned(start, start, Targets(list)[..0])
  {
  }

  /** Restoring leaves a state that can be enumerated, with the same actions. */
  lemma RestoredListable(db: Db, ids: seq<ActionId>, list: seq<ActionId>)
    ensures Listable(db) ==> Listable(Restored(db, ids))
    ensures Restorable(Restored(db, ids), list) <==> Restorable(db, list)
  {
    assert Restored(db, ids).Keys == db.Keys && |Restored(db, ids).Keys| == |db.Keys|;
    forall id | Listable(db) && id in db
      ensures EntryValid(id, Restored(db, ids)[id])
    {
      assert EntryValid(id, db[id]);
    }
  }

  /** A prefix of the confirmed clears, each re-read after the first `turn` answers, then a bounded
      set of project writes. */
  ghost predicate ForcedWrites(cfg: Config, draft: Draft, confirmed: Preview, turn: nat, done: seq<Event>, clears: nat)
    requires cfg.table != []
  {
    && clears <= |done|
    && ClearsInOrder(done[..clears], confirmed.rows, ForcedKeys(cfg, draft, confirmed), turn)
    && ProjectWrites(cfg, draft, done[clears..])
  }

  /** The evidence a successful Force leaves: the project phases' final enumeration, then one
      more that shows the kept rows as confirmed. */
  ghost predicate ForcedImage(cfg: Config, draft: Draft, confirmed: Preview, heard: Readings, images: seq<seq<Tuple>>)
    requires cfg.table != []
  {
    && |images| >= 2 && CleanPreflight(cfg, draft, heard)
    && FinalImage(cfg, draft, Images(cfg, heard.tuples), images[|images| - 2])
    && KeptAsConfirmed(cfg, draft, confirmed.images, images[|images| - 1])
  }

  lemma ForcedThen(cfg: Config, draft: Draft, confirmed: Preview, heard: Readings, seen: seq<seq<Tuple>>, images: seq<seq<Tuple>>)
    requires cfg.table != [] && seen <= images && |images| == |seen| + 1
    requires AppliedOnce(cfg, draft, heard, seen)
    requires KeptAsConfirmed(cfg, draft, confirmed.images, images[|images| - 1])
    ensures ForcedImage(cfg, draft, confirmed, heard, images)
  {
    assert images[|images| - 2] == seen[|seen| - 1];
  }

  lemma CoveredGrows(log: seq<Event>, list: seq<ActionId>, longer: seq<ActionId>)
    requires Covered(log, list) && forall id <- list :: id in longer
    ensures Covered(log, longer)
  {
  }

  lemma RestoresGrow(start: seq<Event>, before: seq<Event>, now: seq<Event>, targets: seq<ActionId>)
    requires start <= before <= now && |now| <= |before| + 1
    requires RestoresInOrder(before[|start|..], targets)
    requires |now| > |before| ==>
               |before| - |start| < |targets| && now[|before|].id == targets[|before| - |start|] && IsRestore(now[|before|])
    ensures RestoresInOrder(now[|start|..], targets)
  {
    assert forall j | 0 <= j < |before| - |start| :: now[|start|..][j] == before[|start|..][j];
  }

  /** Nothing new is outstanding, and none of the given actions still is. */
  ghost predicate Returned(start: seq<Event>, now: seq<Event>, ids: seq<ActionId>) {
    forall id <- Outstanding(now) :: id in Outstanding(start) && id !in ids
  }

  lemma ReturnedStep(start: seq<Event>, before: seq<Event>, e: Event, targets: seq<ActionId>, n: nat)
    requires n < |targets| && Returned(start, before, targets[..n])
    requires IsRestore(e) && e.id == targets[n]
    ensures Returned(start, before + [e], targets[..n + 1])
  {
    OutstandingStep(before, e);
    assert targets[..n + 1] == targets[..n] + [targets[n]];
  }

  lemma CoveredShrinks(start: seq<Event>, done: seq<Event>, list: seq<ActionId>, ids: seq<ActionId>)
    requires Covered(start, list) && Returned(start, done, ids)
    ensures Covered(done, list)
  {
  }

  /** With every target restored, only own actions can still be outstanding. */
  lemma EverythingReturned(start: seq<Event>, done: seq<Event>, list: seq<ActionId>)
    requires Covered(start, list) && Returned(start, done, Targets(list))
    ensures Covered(done, [])
  {
    FilterMembers((id: ActionId) => !ProjectOwned(id), list);
  }

  /** Clears that stopped short are all a Force wrote. */
  lemma ClearsOnly(cfg: Config, draft: Draft, confirmed: Preview, turn: nat, done: seq<Event>)
    requires cfg.table != [] && ClearsInOrder(done, confirmed.rows, ForcedKeys(cfg, draft, confirmed), turn)
    ensures ForcedWrites(cfg, draft, confirmed, turn, done, |done|)
  {
    assert done[..|done|] == done && done[|done|..] == [];
    NothingDone(cfg, draft, true, map[], map[]);
  }

  /** Clears, then project writes. */
  lemma ForcedCompose(cfg: Config, draft: Draft, confirmed: Preview, turn: nat, start: seq<Event>, mid: seq<Event>, now: seq<Event>)
    requires cfg.table != [] && start <= mid <= now
    requires ClearsInOrder(mid[|start|..], confirmed.rows, ForcedKeys(cfg, draft, confirmed), turn)
    requires ProjectWrites(cfg, draft, now[|mid|..])
    ensures ForcedWrites(cfg, draft, confirmed, turn, now[|start|..], |mid| - |start|)
  {
    var n := |mid| - |start|;
    assert now[|start|..][..n] == mid[|start|..] && now[|start|..][n..] == now[|mid|..];
  }

  /** Project writes take nothing from a foreign action. */
  lemma CoveredThroughApply(cfg: Config, draft: Draft, quiet: bool, before: Db, after: Db, mid: seq<Event>, now: seq<Event>, ok: bool, list: seq<ActionId>)
    requires cfg.table != [] && mid <= now && ApplyWritten(cfg, draft, quiet, before, after, now[|mid|..], ok) && Covered(mid, list)
    ensures Covered(now, list) && ProjectWrites(cfg, draft, now[|mid|..])
  {
    assert now == mid + now[|mid|..];
    OutstandingAfterAssigns(mid, now[|mid|..]);
  }

  /** The latest enumeration shows the rows at their posts against a clean preflight. */
  ghost predicate AppliedOnce(cfg: Config, draft: Draft, heard: Readings, images: seq<seq<Tuple>>)
    requires cfg.table != []
  {
    && CleanPreflight(cfg, draft, heard)
    && |images| >= 1 && FinalImage(cfg, draft, Images(cfg, heard.tuples), images[|images| - 1])
  }

  /** What a successful apply inside Force leaves as its last enumeration. */
  lemma AppliedLast(cfg: Config, draft: Draft, heard: Readings, seen: seq<seq<Tuple>>, images: seq<seq<Tuple>>)
    requires cfg.table != [] && seen <= images && AppliedImage(cfg, draft, heard, images[|seen|..])
    ensures AppliedOnce(cfg, draft, heard, images)
  {
    hide CleanPreflight, FinalImage;
    LastOfSuffix(images, |seen|);
  }

  lemma NoForcedWrites(cfg: Config, draft: Draft, confirmed: Preview, turn: nat)
    requires cfg.table != []
    ensures ForcedWrites(cfg, draft, confirmed, turn, [], 0)
  {
    var none: seq<Event> := [];
    assert none[..0] == [] && none[0..] == [];
    NothingDone(cfg, draft, true, map[], map[]);
  }

  lemma LastOfSuffix<T>(s: seq<T>, n: nat)
    requires n < |s|
    ensures s[n..][|s[n..]| - 1] == s[|s| - 1]
  {
  }

  predicate RowKept(draft: Draft, id: ActionId, confirmed: seq<Key>, found: Lookup) {
    id in draft.disabled || draft.authentic || (found.One? && found.tuple.active == confirmed)
  }

  /** Every enumeration of the state shows the kept rows as confirmed. */
  ghost predicate AlwaysKept(cfg: Config, draft: Draft, images: seq<seq<Key>>, db: Db) {
    forall final | Enumerates(final, db) :: KeptAsConfirmed(cfg, draft, images, final)
  }

  predicate KeptAsConfirmed(cfg: Config, draft: Draft, images: seq<seq<Key>>, final: seq<Tuple>) {
    forall i | 0 <= i < |cfg.catalog| && i < |images| :: RowKept(draft, cfg.catalog[i].id, images[i], Find(final, cfg.catalog[i].id))
  }

  /** What the two last enumerations of a successful Force show: the draft, then the kept rows as confirmed. */
  ghost predicate ShowsForced(cfg: Config, draft: Draft, confirmed: Preview, kept: seq<seq<Key>>, images: seq<seq<Tuple>>)
    requires cfg.table != [] && |kept| == |cfg.catalog|
  {
    && |images| >= 2 && ShowsDraft(cfg, draft, kept, images[|images| - 2])
    && (!draft.authentic ==> forall i | 0 <= i < |cfg.catalog| && i < |confirmed.images| && cfg.catalog[i].id !in draft.disabled ::
          ListedOnce(images[|images| - 1], cfg.catalog[i].id, confirmed.images[i]))
  }

  lemma ForcedShows(cfg: Config, draft: Draft, confirmed: Preview, heard: Readings, images: seq<seq<Tuple>>)
    requires cfg.table != [] && ForcedImage(cfg, draft, confirmed, heard, images)
    ensures ShowsForced(cfg, draft, confirmed, Images(cfg, heard.tuples), images)
  {
    hide CleanPreflight, FinalImage, ShowsDraft, ListedOnce;
    FinalImageShows(cfg, draft, Images(cfg, heard.tuples), images[|images| - 2]);
    forall i | 0 <= i < |cfg.catalog| && i < |confirmed.images|
      ensures cfg.catalog[i].id in draft.disabled || draft.authentic || ListedOnce(images[|images| - 1], cfg.catalog[i].id, confirmed.images[i])
    {
      assert RowKept(draft, cfg.catalog[i].id, confirmed.images[i], Find(images[|images| - 1], cfg.catalog[i].id));
      FoundIs(images[|images| - 1], cfg.catalog[i].id);
    }
  }

  /** The clears of one Force: a prefix of the confirmed holders, each from a read of its own of the
      key it loses first. */
  ghost predicate ClearsInOrder(done: seq<Event>, rows: seq<ClearRow>, required: seq<Key>, turn: nat) {
    && |done| <= |rows|
    && (forall j | 0 <= j < |done| :: OwnClear(done[j], rows[j], required, turn))
    && (forall i, j | 0 <= i < j < |done| :: done[i].probe.turn < done[j].probe.turn)
  }

  ghost predicate OwnClear(e: Event, row: ClearRow, required: seq<Key>, turn: nat) {
    RereadClear(e, required) && e.id == row.id && row.removals != [] && e.probe.key == row.removals[0] && turn <= e.probe.turn
  }

  /** The clears so far, none re-read later than the answers heard so far. */
  ghost predicate ClearsSoFar(start: seq<Event>, now: seq<Event>, rows: seq<ClearRow>, required: seq<Key>, turn: nat, turns: nat) {
    && start <= now && turn <= turns
    && ClearsInOrder(now[|start|..], rows, required, turn)
    && forall e <- now[|start|..] :: e.Foreign? && e.probe.Probed? && e.probe.turn < turns
  }

  /** At most one more clear, re-read after all the others. */
  ghost predicate OneClear(before: seq<Event>, now: seq<Event>, row: ClearRow, required: seq<Key>, turn: nat, turns: nat) {
    && before <= now && |now| <= |before| + 1 && turn <= turns
    && (|now| > |before| ==> OwnClear(now[|before|], row, required, turn) && now[|before|].probe.turn < turns)
  }

  /** The probe read one of the row's keys at that turn and lists the holder as confirmed. */
  ghost predicate RereadNow(probe: Probe, row: ClearRow, turn: nat) {
    && probe.Probed? && row.removals != [] && probe.key == row.removals[0] && probe.turn == turn
    && FirstListing(probe.holders, row.id).Some? && FirstListing(probe.holders, row.id).value.active == row.active
  }

  /** No clear, or one from the holder just read: either way the record still covers what was taken. */
  lemma ClearEvent(before: seq<Event>, e: Event, row: ClearRow, required: seq<Key>, turn: nat, turns: nat, list: seq<ActionId>)
    requires turn <= turns && RowSound(row, required) && e.Foreign? && e.id == row.id && e.keys == row.remainder && Covered(before, list) && row.id in list
    requires turn < turns && RereadNow(e.probe, row, turns - 1)
    ensures OneClear(before, before, row, required, turn, turns)
    ensures OneClear(before, before + [e], row, required, turn, turns) && Covered(before + [e], list)
  {
    OutstandingStep(before, e);
  }

  lemma NoClear(before: seq<Event>, row: ClearRow, required: seq<Key>, turn: nat, turns: nat)
    requires turn <= turns
    ensures OneClear(before, before, row, required, turn, turns)
  {
  }

  lemma NoClears(start: seq<Event>, rows: seq<ClearRow>, required: seq<Key>, turn: nat)
    ensures ClearsSoFar(start, start, rows, required, turn, turn)
  {
    assert start[|start|..] == [];
  }

  lemma ClearsGrow(start: seq<Event>, before: seq<Event>, now: seq<Event>, rows: seq<ClearRow>, required: seq<Key>,
                   turn: nat, mid: nat, turns: nat)
    requires ClearsSoFar(start, before, rows, required, turn, mid) && |before| - |start| < |rows|
    requires OneClear(before, now, rows[|before| - |start|], required, mid, turns)
    ensures ClearsSoFar(start, now, rows, required, turn, turns)
  {
    var done := before[|start|..];
    if |now| > |before| {
      assert now[|start|..] == done + [now[|before|]];
    } else {
      assert now == before;
    }
  }

  ghost predicate FreshPreview(cfg: Config, draft: Draft, heard: Readings, preview: Preview)
    requires cfg.table != []
  {
    SnapshotOf(cfg, draft, heard).Some? && preview == PreviewOf(draft, SnapshotOf(cfg, draft, heard).value)
  }

  /** Given the readings a snapshot can be made of, the preview is forceable exactly when some listed outsider
      has a required key and none lacks one; its rows are then the outsiders that have one. */
  ghost predicate ForceableWhen(cfg: Config, draft: Draft, heard: Readings, preview: Preview)
    requires cfg.table != []
  {
    var required := RequiredFor(cfg, draft, heard.tuples);
    && (SnapshotOf(cfg, draft, heard).None? ==> !preview.forceable)
    && (SnapshotOf(cfg, draft, heard).Some? ==>
          && |heard.replies| == |required|
          && (preview.forceable <==> SomeToClear(cfg, required, heard.replies) && !SomeWithout(cfg, required, heard.replies))
          && (preview.forceable ==> RowsAreHolders(cfg, required, heard.replies, preview.rows)))
  }

  lemma PreviewForceable(cfg: Config, draft: Draft, heard: Readings, preview: Preview)
    requires cfg.table != []
    ensures (if SnapshotOf(cfg, draft, heard).Some? then FreshPreview(cfg, draft, heard, preview) else preview == NotForceable) ==>
              ForceableWhen(cfg, draft, heard, preview)
  {
    hide SnapshotOf, PreviewOf;
    if SnapshotOf(cfg, draft, heard).Some? {
      ForceableExactly(cfg, draft, heard);
    }
  }

  /** The preview of a daemon state, as readings of that state and nothing else give it. */
  ghost predicate ActualPreview(cfg: Config, draft: Draft, preview: Preview, db: Db, owner: string, keyed: Key -> Keyed)
    requires cfg.table != []
  {
    exists heard :: HeardOf(cfg, draft, heard, db, owner, keyed) && FreshPreview(cfg, draft, heard, preview)
  }

  /** The catalog rows' lists, and which of them are there. */
  function HeldImages(cfg: Config, db: Db): seq<seq<Key>> {
    seq(|cfg.catalog|, i requires 0 <= i < |cfg.catalog| => if cfg.catalog[i].id in db then db[cfg.catalog[i].id].active else [])
  }

  function HeldPresence(cfg: Config, db: Db): seq<bool> {
    seq(|cfg.catalog|, i requires 0 <= i < |cfg.catalog| => cfg.catalog[i].id in db)
  }

  /** Some required key's answer lists that action with that list. */
  ghost predicate ListsRow(required: seq<Key>, keyed: Key -> Keyed, row: ClearRow) {
    exists i, h :: 0 <= i < |required| && h in keyed(required[i]).holders && h.id == row.id && h.active == row.active
  }

  /** A forceable preview of a state binds the draft, the owner, and every row's list and presence. */
  lemma ActualPreviewBinds(cfg: Config, draft: Draft, preview: Preview, db: Db, owner: string, keyed: Key -> Keyed)
    requires cfg.table != [] && preview.forceable && ActualPreview(cfg, draft, preview, db, owner, keyed)
    ensures preview.owner == owner && preview.disabled == draft.disabled && preview.authentic == draft.authentic
    ensures preview.images == HeldImages(cfg, db) + [if FocusAuthentic(cfg, draft) && LockRow(cfg).foreign in db then db[LockRow(cfg).foreign].active else []]
    ensures preview.present == HeldPresence(cfg, db) + [FocusAuthentic(cfg, draft)]
    ensures forall row <- preview.rows :: ListsRow(RequiredKeys(cfg, draft, KeepKeys(cfg, HeldImages(cfg, db), draft)), keyed, row)
  {
    hide SnapshotOf, PreviewOf, HeldImages, HeldPresence, Images, Presence, RequiredKeys, KeepKeys;
    var heard :| HeardOf(cfg, draft, heard, db, owner, keyed) && FreshPreview(cfg, draft, heard, preview);
    PreviewParts(cfg, draft, heard, preview);
    ImagesHeld(cfg, db, heard.tuples);
    LockHeard(cfg, draft, heard, db);
    var required := RequiredFor(cfg, draft, heard.tuples);
    forall row | row in preview.rows
      ensures ListsRow(required, keyed, row)
    {
      var i, h := RowHeard(cfg, draft, heard, row);
      RowListed(required, keyed, row, i, h);
    }
  }

  lemma RowListed(required: seq<Key>, keyed: Key -> Keyed, row: ClearRow, i: nat, h: Holder)
    requires i < |required| && h in Answers(keyed, required)[i].holders && h.id == row.id && h.active == row.active
    ensures ListsRow(required, keyed, row)
  {
    assert h in keyed(required[i]).holders;
  }

  lemma PreviewParts(cfg: Config, draft: Draft, heard: Readings, preview: Preview)
    requires cfg.table != [] && preview.forceable && FreshPreview(cfg, draft, heard, preview)
    ensures var snap := SnapshotOf(cfg, draft, heard).value;
            && preview.owner == heard.owner && preview.disabled == draft.disabled && preview.authentic == draft.authentic
            && preview.rows == snap.rows
            && preview.images == Images(cfg, heard.tuples) + [if snap.lock.Some? then snap.lock.value.active else []]
            && preview.present == Presence(cfg, heard.tuples) + [snap.lock.Some?]
  {
  }

  lemma RowHeard(cfg: Config, draft: Draft, heard: Readings, row: ClearRow) returns (i: nat, h: Holder)
    requires cfg.table != [] && SnapshotOf(cfg, draft, heard).Some? && row in SnapshotOf(cfg, draft, heard).value.rows
    ensures i < |heard.replies| == |RequiredFor(cfg, draft, heard.tuples)|
    ensures h in heard.replies[i].holders && h.id == row.id && h.active == row.active
  {
    var required, names := RequiredFor(cfg, draft, heard.tuples), NamesOf(cfg, heard.tuples);
    ScanIsExact(cfg, names, required, heard.replies);
    SortRowsEmpty(ScanKeys(cfg, names, required, heard.replies).value.rows);
    assert FromListing(cfg, required, heard.replies, row);
    i, h :| Listed(cfg, required, heard.replies, i, h) && h.id == row.id && h.active == row.active;
  }

  lemma ImagesHeld(cfg: Config, db: Db, ts: seq<Tuple>)
    requires Enumerates(ts, db)
    ensures Images(cfg, ts) == HeldImages(cfg, db) && Presence(cfg, ts) == HeldPresence(cfg, db)
  {
    forall i | 0 <= i < |cfg.catalog|
      ensures Images(cfg, ts)[i] == HeldImages(cfg, db)[i] && Presence(cfg, ts)[i] == HeldPresence(cfg, db)[i]
    {
      var id := cfg.catalog[i].id;
      assert Find(ts, id) == if id in db then One(Tuple(id, db[id].names, db[id].active)) else Missing;
    }
  }

  lemma LockHeard(cfg: Config, draft: Draft, heard: Readings, db: Db)
    requires cfg.table != [] && SnapshotOf(cfg, draft, heard).Some? && Enumerates(heard.tuples, db)
    ensures var lock, id := SnapshotOf(cfg, draft, heard).value.lock, LockRow(cfg).foreign;
            && (lock.Some? <==> FocusAuthentic(cfg, draft))
            && (lock.Some? ==> id in db && lock.value.active == db[id].active)
  {
    var id := LockRow(cfg).foreign;
    assert Find(heard.tuples, id) == if id in db then One(Tuple(id, db[id].names, db[id].active)) else Missing;
  }

  function ForcedKeys(cfg: Config, draft: Draft, confirmed: Preview): seq<Key>
    requires cfg.table != []
  {
    RequiredKeys(cfg, draft, KeepKeys(cfg, confirmed.images, draft))
  }

  /** A row clears something, and exactly what its own list calls for. */
  ghost predicate RowSound(row: ClearRow, required: seq<Key>) {
    row.removals != [] && row.removals == Conflicting(row.active, required) && row.remainder == Remainder(row.active, required)
  }

  lemma RowRemoves(row: ClearRow, required: seq<Key>)
    requires RowSound(row, required)
    ensures row.removals != []
  {
  }

  /** How many owner and keyed answers the readings took. */
  function Answered(heard: Readings): nat {
    1 + 2 * |heard.replies|
  }

  lemma {:induction false} SpokenLength(keys: seq<Key>, replies: seq<Keyed>)
    requires |replies| <= |keys|
    ensures |Spoken(keys, replies)| == 2 * |replies|
    decreases |replies|
  {
    if replies != [] {
      SpokenLength(keys, replies[..|replies| - 1]);
    }
  }

  lemma OverheardTakes(cfg: Config, draft: Draft, heard: Readings,
                       told: seq<Answer>, nowTold: seq<Answer>, images: seq<seq<Tuple>>, nowImages: seq<seq<Tuple>>)
    requires cfg.table != [] && Overheard(cfg, draft, heard, told, nowTold, images, nowImages)
    ensures |nowTold| == |told| + Answered(heard)
  {
    SpokenLength(RequiredFor(cfg, draft, heard.tuples), heard.replies);
  }

  ghost predicate Confirmable(cfg: Config, confirmed: Preview, draft: Draft)
    requires cfg.table != []
  {
    && confirmed.forceable && confirmed.disabled == draft.disabled && confirmed.authentic == draft.authentic
    && forall row <- confirmed.rows :: RowSound(row, ForcedKeys(cfg, draft, confirmed))
  }

  lemma AppliedFrom(cfg: Config, draft: Draft, heard: Readings, seen: seq<seq<Tuple>>, images: seq<seq<Tuple>>)
    requires cfg.table != [] && seen + [heard.tuples] <= images && |images| > |seen| + 1
    requires CleanPreflight(cfg, draft, heard)
    requires FinalImage(cfg, draft, Images(cfg, heard.tuples), images[|images| - 1])
    ensures AppliedImage(cfg, draft, heard, images[|seen|..])
  {
    hide CleanPreflight, FinalImage;
    assert (seen + [heard.tuples])[|seen|] == heard.tuples;
    LastOfSuffix(images, |seen|);
  }

  /** A preflight that found nothing to clear and nothing in the way. */
  ghost predicate CleanPreflight(cfg: Config, draft: Draft, heard: Readings)
    requires cfg.table != []
  {
    && SnapshotOf(cfg, draft, heard).Some?
    && SnapshotOf(cfg, draft, heard).value.rows == [] && SnapshotOf(cfg, draft, heard).value.blocked == []
  }

  lemma NothingDone(cfg: Config, draft: Draft, quiet: bool, db: Db, after: Db)
    requires cfg.table != [] && (quiet ==> after == db)
    ensures ApplyWritten(cfg, draft, quiet, db, after, [], false)
  {
  }

  /** The evidence a successful Apply leaves: its first and last enumerations. */
  ghost predicate AppliedImage(cfg: Config, draft: Draft, heard: Readings, images: seq<seq<Tuple>>)
    requires cfg.table != []
  {
    && |images| >= 2 && images[0] == heard.tuples
    && CleanPreflight(cfg, draft, heard)
    && FinalImage(cfg, draft, Images(cfg, heard.tuples), images[|images| - 1])
  }

  lemma AppliedShows(cfg: Config, draft: Draft, heard: Readings, images: seq<seq<Tuple>>)
    requires cfg.table != [] && AppliedImage(cfg, draft, heard, images)
    ensures ShowsDraft(cfg, draft, Images(cfg, heard.tuples), images[|images| - 1])
  {
    FinalImageShows(cfg, draft, Images(cfg, heard.tuples), images[|images| - 1]);
  }

  /** What a successful Apply leaves to be seen and, on an undisturbed daemon, in its state. */
  lemma ApplyShown(cfg: Config, draft: Draft, heard: Readings, quiet: bool, db: Db, after: Db, done: seq<Event>,
                   seen: seq<seq<Tuple>>, images: seq<seq<Tuple>>)
    requires WellFormed(cfg) && seen <= images && AppliedImage(cfg, draft, heard, images[|seen|..])
    requires ApplyWritten(cfg, draft, quiet, db, after, done, true)
    ensures ShowsDraft(cfg, draft, Images(cfg, heard.tuples), images[|images| - 1])
    ensures quiet ==> HoldsDraft(cfg, draft, db, after)
  {
    assert cfg.table != [];
    hide WellFormed, ShowsDraft, HoldsDraft, ApplyWritten, AppliedImage, Images;
    assert |images[|seen|..]| >= 2 by { AppliedTwice(cfg, draft, heard, images[|seen|..]); }
    AppliedShows(cfg, draft, heard, images[|seen|..]);
    LastOfSuffix(images, |seen|);
    if quiet { WrittenHolds(cfg, draft, db, after, done); }
  }

  lemma AppliedTwice(cfg: Config, draft: Draft, heard: Readings, images: seq<seq<Tuple>>)
    requires cfg.table != [] && AppliedImage(cfg, draft, heard, images)
    ensures |images| >= 2
  {
  }

  lemma WrittenHolds(cfg: Config, draft: Draft, db: Db, after: Db, done: seq<Event>)
    requires WellFormed(cfg) && ApplyWritten(cfg, draft, true, db, after, done, true)
    ensures HoldsDraft(cfg, draft, db, after)
  {
    PlanHoldsDraft(cfg, draft, db);
  }

  /** What writing focus comes to: its one write or none, all of it on success. */
  ghost predicate FocusWritten(cfg: Config, active: seq<Key>, quiet: bool, before: Db, after: Db, done: seq<Event>, ok: bool)
    requires cfg.table != []
  {
    var want := FocusNeed(cfg, active);
    done <= want && (ok ==> done == want) && (quiet ==> after == Run(before, done))
  }

  /** The write that takes focus from the list read to its post. */
  function FocusNeed(cfg: Config, active: seq<Key>): seq<Event>
    requires cfg.table != []
  {
    if active == LockRow(cfg).post then [] else [Assign(LockRow(cfg).project, LockRow(cfg).post)]
  }

  /** What relocating the lock comes to: at most that one write, and the one the state calls for. */
  ghost predicate LockRelocated(cfg: Config, quiet: bool, before: Db, after: Db, done: seq<Event>, ok: bool)
    requires cfg.table != []
  {
    && |done| <= 1 && (done != [] ==> done[0].Assign? && done[0].id == LockRow(cfg).foreign)
    && (quiet ==> FollowsPlan(Need(Relocate(LockRow(cfg).foreign, LockRow(cfg)), before), before, after, done, ok))
  }

  /** What the two together come to. */
  ghost predicate LockWritten(cfg: Config, active: seq<Key>, quiet: bool, before: Db, after: Db, done: seq<Event>, ok: bool)
    requires cfg.table != []
  {
    && LockWrites(cfg, done)
    && (quiet && FocusIs(cfg, active, before) ==> FollowsPlan(LockNeedsOf(cfg, before), before, after, done, ok))
  }

  lemma FocusThenLock(cfg: Config, active: seq<Key>, quiet: bool, db: Db, mid: Db, after: Db,
                      start: seq<Event>, between: seq<Event>, now: seq<Event>, focused: bool, ok: bool)
    requires WellFormed(cfg) && start <= between <= now
    requires FocusWritten(cfg, active, quiet, db, mid, between[|start|..], focused)
    requires if focused then LockRelocated(cfg, quiet, mid, after, now[|between|..], ok) else now == between && after == mid && !ok
    ensures LockWritten(cfg, active, quiet, db, after, now[|start|..], ok)
  {
    assert cfg.table != [];
    hide WellFormed, Run, FollowsPlan, Need, LockNeedsOf, LockWrites, FocusWritten;
    var one, two := between[|start|..], now[|between|..];
    assert now[|start|..] == one + two;
    FocusOrBoth(cfg, active, quiet, db, mid, one, two, focused);
    if quiet && FocusIs(cfg, active, db) {
      FocusFollows(cfg, active, db, mid, one, focused);
      LockComposes(cfg, db, mid, after, one, two, focused, ok);
    }
  }

  /** At most the focus write, then at most one of the lock. */
  lemma FocusOrBoth(cfg: Config, active: seq<Key>, quiet: bool, db: Db, mid: Db, one: seq<Event>, two: seq<Event>, focused: bool)
    requires cfg.table != [] && FocusWritten(cfg, active, quiet, db, mid, one, focused)
    requires |two| <= 1 && (two != [] ==> two[0].Assign? && two[0].id == LockRow(cfg).foreign)
    ensures LockWrites(cfg, one + two)
  {
    hide Run;
    if one == [] {
      assert one + two == two;
    } else if two == [] {
      assert one + two == one;
    }
  }

  /** On a focus read as it is, writing it is what its part of the plan asks. */
  lemma FocusFollows(cfg: Config, active: seq<Key>, db: Db, mid: Db, one: seq<Event>, ok: bool)
    requires cfg.table != [] && FocusWritten(cfg, active, true, db, mid, one, ok) && FocusIs(cfg, active, db)
    ensures FollowsPlan(Need(Own(LockRow(cfg).project, LockRow(cfg).post), db), db, mid, one, ok)
  {
  }

  /** The focus write and the relocation make up the lock part of the plan. */
  lemma LockComposes(cfg: Config, db: Db, mid: Db, after: Db, one: seq<Event>, two: seq<Event>, focused: bool, ok: bool)
    requires WellFormed(cfg)
    requires FollowsPlan(Need(Own(LockRow(cfg).project, LockRow(cfg).post), db), db, mid, one, focused)
    requires if focused then FollowsPlan(Need(Relocate(LockRow(cfg).foreign, LockRow(cfg)), mid), mid, after, two, ok) else two == [] && after == mid && !ok
    ensures FollowsPlan(LockNeedsOf(cfg, db), db, after, one + two, ok)
  {
    assert LockRow(cfg).project != LockRow(cfg).foreign by {
      var i :| 0 <= i < |cfg.catalog| && cfg.catalog[i].id == LockRow(cfg).project;
    }
    RunElsewhere(db, one, LockRow(cfg).foreign);
    RunConcat(db, one, two);
    if !focused {
      assert one + two == one;
    }
  }

  /** A settled focus leaves the lock ready to be relocated, and that is all the lock part still needs. */
  lemma FocusReady(cfg: Config, active: seq<Key>, db: Db, mid: Db, done: seq<Event>)
    requires WellFormed(cfg) && FocusWritten(cfg, active, true, db, mid, done, true) && FocusIs(cfg, active, db)
    ensures LockRow(cfg).foreign in db ==> LockReady(cfg, mid)
    ensures Listable(db) ==> Listable(mid)
    ensures |LockNeedsOf(cfg, db)| == |done| + |Need(Relocate(LockRow(cfg).foreign, LockRow(cfg)), mid)|
  {
    assert LockRow(cfg).project != LockRow(cfg).foreign by {
      var i :| 0 <= i < |cfg.catalog| && cfg.catalog[i].id == LockRow(cfg).project;
    }
    RunElsewhere(db, done, LockRow(cfg).foreign);
    if done != [] {
      RunOne(db, done[0]);
    }
    LockSlotsFit(cfg);
    if Listable(db) {
      RunListable(db, done);
    }
  }

  /** At most focus, then at most the lock. */
  ghost predicate LockWrites(cfg: Config, done: seq<Event>)
    requires cfg.table != []
  {
    && (forall e <- done :: e.Assign?)
    && (|| done == []
        || (|done| == 1 && done[0].id in {LockRow(cfg).project, LockRow(cfg).foreign})
        || (|done| == 2 && done[0].id == LockRow(cfg).project && done[1].id == LockRow(cfg).foreign))
  }

  predicate RowFound(draft: Draft, id: ActionId, found: Lookup) {
    found.One? || (found.Missing? && id in draft.disabled)
  }

  /** An enumeration of a state with every row present has every row. */
  lemma PresentRowsFound(cfg: Config, draft: Draft, db: Db, ts: seq<Tuple>)
    requires cfg.table != [] && RowsPresent(cfg, draft, db) && Enumerates(ts, db)
    ensures forall i | 0 <= i < |cfg.catalog| :: RowFound(draft, cfg.catalog[i].id, Find(ts, cfg.catalog[i].id))
  {
    forall i | 0 <= i < |cfg.catalog|
      ensures RowFound(draft, cfg.catalog[i].id, Find(ts, cfg.catalog[i].id))
    {
      var id := cfg.catalog[i].id;
      assert Find(ts, id) == if id in db then One(Tuple(id, db[id].names, db[id].active)) else Missing;
    }
  }

  /** What a preflight has read before it asks for holders. */
  datatype Reading = Reading(owner: string, tuples: seq<Tuple>, images: seq<seq<Key>>, present: seq<bool>, names: Names, required: seq<Key>)

  ghost predicate ReadRight(cfg: Config, draft: Draft, read: Reading)
    requires cfg.table != []
  {
    && Enumerable(cfg, draft, read.tuples)
    && read.images == Images(cfg, read.tuples) && read.present == Presence(cfg, read.tuples)
    && read.names == NamesOf(cfg, read.tuples) && read.required == RequiredFor(cfg, draft, read.tuples)
  }

  /** The snapshot a reading and its keyed scan amount to. */
  function Assembled(cfg: Config, draft: Draft, read: Reading, scan: Scan): Option<Snapshot>
    requires cfg.table != []
  {
    var focus, lock := Find(read.tuples, LockRow(cfg).project), Find(read.tuples, LockRow(cfg).foreign);
    if !FocusAuthentic(cfg, draft) then
      Some(Snapshot(read.owner, None, None, read.images, read.present, SortRows(scan.rows), scan.blocked))
    else if !focus.One? || !lock.One? || !LockRelocatable(LockRow(cfg), lock.tuple.active) then None
    else Some(Snapshot(read.owner, Some(focus.tuple), Some(lock.tuple), read.images, read.present, SortRows(scan.rows), scan.blocked))
  }

  lemma AssembledIs(cfg: Config, draft: Draft, read: Reading, replies: seq<Keyed>)
    requires cfg.table != [] && ReadRight(cfg, draft, read) && |replies| == |read.required|
    ensures var heard, scan := Readings(read.owner, read.tuples, replies), ScanKeys(cfg, read.names, read.required, replies);
            SnapshotOf(cfg, draft, heard) == if scan.None? then None else Assembled(cfg, draft, read, scan.value)
  {
  }

  lemma NotEnumerable(cfg: Config, draft: Draft, heard: Readings)
    requires cfg.table != [] && !Enumerable(cfg, draft, heard.tuples)
    ensures SnapshotOf(cfg, draft, heard) == None
  {
  }

  lemma OverheardNow(cfg: Config, draft: Draft, heard: Readings, read: Reading, told: seq<Answer>, images: seq<seq<Tuple>>)
    requires cfg.table != [] && ReadRight(cfg, draft, read) && heard.owner == read.owner && heard.tuples == read.tuples
    requires |heard.replies| == |read.required|
    ensures Overheard(cfg, draft, heard, told, told + [OwnerIs(read.owner)] + Spoken(read.required, heard.replies), images, images + [read.tuples])
    ensures read.required == RequiredFor(cfg, draft, heard.tuples)
  {
  }

  lemma HeardAs(cfg: Config, draft: Draft, heard: Readings, db: Db, keyed: Key -> Keyed)
    requires cfg.table != [] && Enumerates(heard.tuples, db) && heard.replies == Answers(keyed, RequiredFor(cfg, draft, heard.tuples))
    ensures HeardOf(cfg, draft, heard, db, heard.owner, keyed)
  {
  }

  /** What the write phases need to go through: every row there, and a focus reading that is current. */
  ghost predicate PhasesReady(cfg: Config, draft: Draft, active: seq<Key>, db: Db)
    requires cfg.table != []
  {
    RowsPresent(cfg, draft, db) && Listable(db) && (FocusAuthentic(cfg, draft) ==> FocusIs(cfg, active, db))
  }

  /** How many writes the lock's phases take. */
  ghost function LockCount(cfg: Config, draft: Draft, db: Db): nat
    requires cfg.table != []
  {
    if FocusAuthentic(cfg, draft) then |LockNeedsOf(cfg, db)| else 0
  }

  /** The focus list a snapshot read, while the lock is in scope. */
  function FocusReading(snap: Snapshot): seq<Key> {
    if snap.focus.Some? then snap.focus.value.active else []
  }

  /** A snapshot of this catalog under this draft: one image per row, and the lock pair resolved
      exactly while the lock is in scope. */
  ghost predicate Fits(cfg: Config, draft: Draft, snap: Snapshot)
    requires cfg.table != []
  {
    && |snap.images| == |cfg.catalog|
    && (snap.lock.Some? <==> FocusAuthentic(cfg, draft))
    && (snap.lock.Some? ==> snap.focus.Some? && snap.focus.value.id == LockRow(cfg).project && LabelValid(snap.focus.value.names))
  }

  /** A preflight that can read everything finds every row that is not disabled. */
  lemma CleanRowsPresent(cfg: Config, draft: Draft, heard: Readings, db: Db)
    requires cfg.table != [] && CleanPreflight(cfg, draft, heard) && Enumerates(heard.tuples, db)
    ensures RowsPresent(cfg, draft, db)
  {
    forall i | 0 <= i < |cfg.catalog|
      ensures cfg.catalog[i].id in db || cfg.catalog[i].id in draft.disabled
    {
      assert RowReadable(draft, cfg.catalog[i].id, Find(heard.tuples, cfg.catalog[i].id));
    }
    if FocusAuthentic(cfg, draft) {
      assert Find(heard.tuples, LockRow(cfg).foreign).One?;
    }
  }

  /** Focus is part of what the lock still needs. */
  lemma FocusNeedCounts(cfg: Config, active: seq<Key>, db: Db)
    requires cfg.table != []
    ensures FocusIs(cfg, active, db) ==> |FocusNeed(cfg, active)| <= |LockNeedsOf(cfg, db)|
  {
  }

  /** What is read of the rows can be sent. */
  lemma RowsReadFit(cfg: Config, draft: Draft, ts: seq<Tuple>, needs: seq<Pending>, clears: seq<Pending>)
    requires WellFormed(cfg) && TuplesReadable(ts)
    requires needs == NeedsIn(AssignSlots(cfg, draft, cfg.catalog), ts) && clears == NeedsIn(ClearSlots(draft, cfg.catalog), ts)
    ensures PendingFits(needs) && PendingFits(clears)
  {
    PlanSlotsFit(cfg, draft);
    NeedsInFit(AssignSlots(cfg, draft, cfg.catalog), ts);
    NeedsInFit(ClearSlots(draft, cfg.catalog), ts);
  }

  /** As many writes as the rows of the state need. */
  lemma RowsCounted(cfg: Config, draft: Draft, ts: seq<Tuple>, db: Db)
    requires cfg.table != [] && Enumerates(ts, db)
    ensures |NeedsIn(AssignSlots(cfg, draft, cfg.catalog), ts)| + |NeedsIn(ClearSlots(draft, cfg.catalog), ts)| == |Needs(RowSlots(cfg, draft), db)|
  {
    NeedsInConcat(AssignSlots(cfg, draft, cfg.catalog), ClearSlots(draft, cfg.catalog), ts);
    NeedsInFaithful(RowSlots(cfg, draft), ts, db);
  }

  /** An answer that is refused as unreadable is one the scan refuses. */
  lemma UnreadableFails(cfg: Config, names: Names, required: seq<Key>, key: Key, reply: Keyed, scan: Scan)
    requires cfg.table != []
    ensures !HoldersReadable(reply.holders) ==> ScanKey(cfg, names, required, key, reply, scan).None?
  {
    if ScanHolders(cfg, names, required, key, reply.holders, scan).Some? {
      forall h | h in reply.holders
        ensures HolderValid(h)
      {
        var i :| 0 <= i < |reply.holders| && reply.holders[i] == h;
        HoldersPrefix(cfg, names, required, key, reply.holders, scan, i);
      }
    }
  }

  /** The phases' writes are no more than the finish allows, and with a current focus reading all of the plan on success. */
  lemma PhasesBounded(cfg: Config, draft: Draft, active: seq<Key>, quiet: bool, before: Db, after: Db, done: seq<Event>, ok: bool)
    requires cfg.table != [] && PhasesWritten(cfg, draft, active, quiet, before, after, done, ok)
    ensures |done| <= |cfg.catalog| + 1
    ensures quiet && ok && PhasesReady(cfg, draft, active, before) ==> after == Run(before, Plan(cfg, draft, before)) && done == Plan(cfg, draft, before)
  {
  }

  /** What is left of the whole plan can be enumerated. */
  lemma AfterPlanListable(cfg: Config, draft: Draft, active: seq<Key>, db: Db)
    requires WellFormed(cfg) && PhasesReady(cfg, draft, active, db)
    ensures Listable(Run(db, Plan(cfg, draft, db)))
  {
    PlanFits(cfg, draft, db);
    RunListable(db, Plan(cfg, draft, db));
  }

  /** The finish writes nothing, and may refuse. */
  lemma FinishWritesNothing(cfg: Config, draft: Draft, active: seq<Key>, quiet: bool, before: Db, mid: Db, after: Db, done: seq<Event>,
                            through: bool, ok: bool)
    requires cfg.table != [] && PhasesWritten(cfg, draft, active, quiet, before, mid, done, through)
    requires (quiet ==> after == mid) && (ok ==> through)
    ensures PhasesWritten(cfg, draft, active, quiet, before, after, done, ok)
  {
  }

  /** The preflight changes nothing. */
  lemma PreflightWritesNothing(cfg: Config, draft: Draft, quiet: bool, before: Db, mid: Db, after: Db, done: seq<Event>, ok: bool)
    requires cfg.table != [] && ApplyWritten(cfg, draft, quiet, mid, after, done, ok) && (quiet ==> mid == before)
    ensures ApplyWritten(cfg, draft, quiet, before, after, done, ok)
  {
  }

  /** With a current focus reading, what the phases come to is what the Apply comes to. */
  lemma ReadyPhases(cfg: Config, draft: Draft, active: seq<Key>, quiet: bool, before: Db, after: Db, done: seq<Event>, ok: bool)
    requires cfg.table != [] && PhasesWritten(cfg, draft, active, quiet, before, after, done, ok)
    requires quiet ==> PhasesReady(cfg, draft, active, before)
    ensures ApplyWritten(cfg, draft, quiet, before, after, done, ok)
  {
  }

  /** A clean preflight of an undisturbed state leaves the phases ready. */
  lemma CleanReady(cfg: Config, draft: Draft, heard: Readings, db: Db, owner: string, keyed: Key -> Keyed)
    requires WellFormed(cfg) && TuplesReadable(heard.tuples) && Listable(db)
    requires CleanPreflight(cfg, draft, heard) && HeardOf(cfg, draft, heard, db, owner, keyed)
    ensures PhasesReady(cfg, draft, FocusReading(SnapshotOf(cfg, draft, heard).value), db)
    ensures SnapshotOf(cfg, draft, heard).value.owner == owner
  {
    CleanRowsPresent(cfg, draft, heard, db);
    FocusReadAsIs(cfg, draft, heard, db, owner, keyed);
  }

  /** From a clean preflight of an undisturbed state the whole plan reaches the image the finish accepts. */
  lemma CleanSettles(cfg: Config, draft: Draft, heard: Readings, db: Db, owner: string, keyed: Key -> Keyed, final: seq<Tuple>)
    requires WellFormed(cfg) && CleanPreflight(cfg, draft, heard) && HeardOf(cfg, draft, heard, db, owner, keyed)
    requires Enumerates(final, Run(db, Plan(cfg, draft, db)))
    ensures FinalImage(cfg, draft, Images(cfg, heard.tuples), final)
  {
    CleanRowsPresent(cfg, draft, heard, db);
    PlanReachesImage(cfg, draft, db, heard.tuples, final);
    LockHeard(cfg, draft, heard, db);
  }

  /** A clean preflight, overheard at the start of a call that may have gone on. */
  ghost predicate Preflighted(cfg: Config, draft: Draft, heard: Readings,
                              told: seq<Answer>, nowTold: seq<Answer>, images: seq<seq<Tuple>>, nowImages: seq<seq<Tuple>>)
    requires cfg.table != []
  {
    && CleanPreflight(cfg, draft, heard)
    && OverheardFirst(cfg, draft, heard, told, nowTold, images, nowImages)
  }

  /** The readings are the first things the daemon said in between. */
  ghost predicate OverheardFirst(cfg: Config, draft: Draft, heard: Readings,
                                 told: seq<Answer>, nowTold: seq<Answer>, images: seq<seq<Tuple>>, nowImages: seq<seq<Tuple>>)
    requires cfg.table != []
  {
    && |heard.replies| == |RequiredFor(cfg, draft, heard.tuples)|
    && told + [OwnerIs(heard.owner)] + Spoken(RequiredFor(cfg, draft, heard.tuples), heard.replies) <= nowTold
    && images + [heard.tuples] <= nowImages
  }

  lemma OverheardThenMore(cfg: Config, draft: Draft, heard: Readings,
                          told: seq<Answer>, midTold: seq<Answer>, nowTold: seq<Answer>,
                          images: seq<seq<Tuple>>, midImages: seq<seq<Tuple>>, nowImages: seq<seq<Tuple>>)
    requires cfg.table != [] && midTold <= nowTold && midImages <= nowImages
    requires Overheard(cfg, draft, heard, told, midTold, images, midImages)
    ensures OverheardFirst(cfg, draft, heard, told, nowTold, images, nowImages)
  {
  }

  /** What a call that got past its preflight leaves in the records. */
  lemma ImageApplied(cfg: Config, draft: Draft, heard: Readings,
                     told: seq<Answer>, midTold: seq<Answer>, nowTold: seq<Answer>,
                     images: seq<seq<Tuple>>, midImages: seq<seq<Tuple>>, nowImages: seq<seq<Tuple>>, ok: bool)
    requires cfg.table != [] && CleanPreflight(cfg, draft, heard) && midTold <= nowTold && midImages <= nowImages
    requires Overheard(cfg, draft, heard, told, midTold, images, midImages)
    requires ok ==> |nowImages| > |midImages| && FinalImage(cfg, draft, Images(cfg, heard.tuples), nowImages[|nowImages| - 1])
    ensures Preflighted(cfg, draft, heard, told, nowTold, images, nowImages)
    ensures ok ==> AppliedImage(cfg, draft, heard, nowImages[|images|..])
  {
    OverheardThenMore(cfg, draft, heard, told, midTold, nowTold, images, midImages, nowImages);
    if ok {
      AppliedFrom(cfg, draft, heard, images, nowImages);
    }
  }

  lemma NothingAsked(cfg: Config, names: Names, required: seq<Key>, keyed: Key -> Keyed)
    requires cfg.table != []
    ensures ScanKeys(cfg, names, required, []) == Some(NothingFound) && KeysStatus(cfg, required, []) == Clear
    ensures Spoken(required, []) == [] && Answers(keyed, required[..0]) == []
  {
  }

  lemma ScanStep(cfg: Config, names: Names, required: seq<Key>, replies: seq<Keyed>, reply: Keyed)
    requires cfg.table != [] && |replies| < |required| && ScanKeys(cfg, names, required, replies).Some?
    ensures ScanKeys(cfg, names, required, replies + [reply]) ==
            ScanKey(cfg, names, required, required[|replies|], reply, ScanKeys(cfg, names, required, replies).value)
    ensures Spoken(required, replies + [reply]) ==
            Spoken(required, replies) + [HoldersAre(required[|replies|], reply.holders), AvailableIs(required[|replies|], reply.available)]
  {
    hide KeyStatus;
    assert (replies + [reply])[..|replies|] == replies;
  }

  lemma StatusStep(cfg: Config, required: seq<Key>, replies: seq<Keyed>, reply: Keyed)
    requires cfg.table != [] && |replies| < |required| && KeysStatus(cfg, required, replies) == Clear
    ensures KeysStatus(cfg, required, replies + [reply]) == KeyStatus(cfg, required[|replies|], reply)
    ensures Spoken(required, replies + [reply]) ==
            Spoken(required, replies) + [HoldersAre(required[|replies|], reply.holders), AvailableIs(required[|replies|], reply.available)]
  {
    hide KeyStatus;
    assert (replies + [reply])[..|replies|] == replies;
  }

  /** Every answer there is to the keys can be read. */
  ghost predicate AllReadable(keyed: Key -> Keyed, keys: seq<Key>) {
    forall i | 0 <= i < |keys| :: HoldersReadable(keyed(keys[i]).holders)
  }

  /** The status over the answers so far, one key further: trouble there is the status of the whole. */
  lemma StatusSoFar(cfg: Config, required: seq<Key>, keyed: Key -> Keyed, replies: seq<Keyed>, i: nat)
    requires cfg.table != [] && i < |required| && |replies| == i && replies == Answers(keyed, required[..i])
    requires KeysStatus(cfg, required, replies) == Clear
    ensures KeyStatus(cfg, required[i], keyed(required[i])) != Clear ==>
              KeysStatus(cfg, required, Answers(keyed, required)) == KeyStatus(cfg, required[i], keyed(required[i]))
  {
    hide KeyStatus, KeysStatus;
    var all := Answers(keyed, required);
    StatusIsFirst(cfg, required, replies);
    StatusIsFirst(cfg, required, all);
    assert forall j | 0 <= j < i :: all[j] == replies[j];
  }

  lemma AnswersStep(keyed: Key -> Keyed, required: seq<Key>, replies: seq<Keyed>)
    requires |replies| < |required| && replies == Answers(keyed, required[..|replies|])
    ensures replies + [keyed(required[|replies|])] == Answers(keyed, required[..|replies| + 1])
  {
  }

  /** The scan over the answers so far, one key further: a failure there is a failure of the whole. */
  lemma AnswersPrefix(cfg: Config, names: Names, required: seq<Key>, keyed: Key -> Keyed, replies: seq<Keyed>, i: nat)
    requires cfg.table != [] && i < |required| && |replies| == i && replies == Answers(keyed, required[..i])
    requires ScanKeys(cfg, names, required, replies).Some?
    ensures ScanKey(cfg, names, required, required[i], keyed(required[i]), ScanKeys(cfg, names, required, replies).value).None? ==>
              ScanKeys(cfg, names, required, Answers(keyed, required)).None?
  {
    var all := Answers(keyed, required);
    assert all[..i] == replies && all[..i + 1][..i] == replies && all[..i + 1][i] == keyed(required[i]);
    ScanStaysFailed(cfg, names, required, all, i + 1);
  }

  lemma {:induction false} ScanStaysFailed(cfg: Config, names: Names, required: seq<Key>, replies: seq<Keyed>, n: nat)
    requires cfg.table != [] && n <= |replies| <= |required|
    ensures ScanKeys(cfg, names, required, replies[..n]).None? ==> ScanKeys(cfg, names, required, replies).None?
    decreases |replies| - n
  {
    if n < |replies| {
      assert replies[..n + 1][..n] == replies[..n];
      ScanStaysFailed(cfg, names, required, replies, n + 1);
    } else {
      assert replies[..n] == replies;
    }
  }

  lemma StillPresent(cfg: Config, draft: Draft, active: seq<Key>, db: Db, mid: Db, done: seq<Event>, locked: bool)
    requires WellFormed(cfg) && PhasesReady(cfg, draft, active, db)
    requires if FocusAuthentic(cfg, draft) then LockWritten(cfg, active, true, db, mid, done, locked) else mid == db
    ensures RowsPresent(cfg, draft, mid) && Listable(mid)
    ensures LockCount(cfg, draft, db) <= |Plan(cfg, draft, db)|
    ensures locked ==> |Plan(cfg, draft, db)| == LockCount(cfg, draft, db) + |Needs(RowSlots(cfg, draft), mid)|
    ensures locked && FocusAuthentic(cfg, draft) ==> |done| == LockCount(cfg, draft, db)
  {
    RunKeepsIds(db, done);
    NeedsConcat(LockSlots(cfg, draft), RowSlots(cfg, draft), db);
    if FocusAuthentic(cfg, draft) {
      LockNeeds(cfg, draft, db);
      PlanFits(cfg, draft, db);
      assert forall e <- done :: e in Plan(cfg, draft, db);
      RunListable(db, done);
      RowNeedsSurviveLock(cfg, draft, db, done);
    }
  }

  /** The lock's writes and then the rows' writes are those of one call, and of its plan. */
  lemma PhasesCompose(cfg: Config, draft: Draft, active: seq<Key>, quiet: bool, start: seq<Event>, between: seq<Event>, now: seq<Event>,
                      db: Db, mid: Db, after: Db, locked: bool, ok: bool)
    requires WellFormed(cfg) && start <= between <= now
    requires if FocusAuthentic(cfg, draft) then LockWritten(cfg, active, quiet, db, mid, between[|start|..], locked)
             else between == start && locked && mid == db
    requires if locked then RowsWritten(cfg, draft, quiet, mid, after, now[|between|..], ok) else now == between && after == mid && !ok
    ensures PhasesWritten(cfg, draft, active, quiet, db, after, now[|start|..], ok)
  {
    var one, two := between[|start|..], now[|between|..];
    assert now[|start|..] == one + two;
    if !locked {
      assert two == [];
      NoRowsWritten(cfg, draft, false, db, db);
    }
    PhasesAreProjectWrites(cfg, draft, one, two);
    if quiet && (FocusAuthentic(cfg, draft) ==> FocusIs(cfg, active, db)) {
      PhasesFollowPlan(cfg, draft, db, mid, after, one, two, locked, ok);
    }
  }

  /** What the row phases come to: row writes, and those the state calls for. */
  ghost predicate RowsWritten(cfg: Config, draft: Draft, quiet: bool, before: Db, after: Db, done: seq<Event>, ok: bool)
    requires cfg.table != []
  {
    && RowWrites(cfg, draft, done)
    && (quiet ==> FollowsPlan(Needs(RowSlots(cfg, draft), before), before, after, done, ok))
  }

  /** What all write phases come to: one call's project writes, and a prefix of the plan, all of it on success. */
  ghost predicate PhasesWritten(cfg: Config, draft: Draft, active: seq<Key>, quiet: bool, before: Db, after: Db, done: seq<Event>, ok: bool)
    requires cfg.table != []
  {
    && ProjectWrites(cfg, draft, done)
    && (quiet && (FocusAuthentic(cfg, draft) ==> FocusIs(cfg, active, before)) ==>
          FollowsPlan(Plan(cfg, draft, before), before, after, done, ok))
  }

  /** What one whole Apply comes to. */
  ghost predicate ApplyWritten(cfg: Config, draft: Draft, quiet: bool, before: Db, after: Db, done: seq<Event>, ok: bool)
    requires cfg.table != []
  {
    && ProjectWrites(cfg, draft, done)
    && (quiet ==> FollowsPlan(Plan(cfg, draft, before), before, after, done, ok))
  }

  /** Focus-right is at its post and Lock Session is there. */
  ghost predicate LockReady(cfg: Config, db: Db)
    requires cfg.table != []
  {
    LockRow(cfg).project in db && db[LockRow(cfg).project].active == LockRow(cfg).post && LockRow(cfg).foreign in db
  }

  /** The focus reading is current. */
  ghost predicate FocusIs(cfg: Config, active: seq<Key>, db: Db)
    requires cfg.table != []
  {
    LockRow(cfg).project in db && active == db[LockRow(cfg).project].active
  }

  ghost function LockNeedsOf(cfg: Config, db: Db): seq<Event>
    requires cfg.table != []
  {
    Need(Own(LockRow(cfg).project, LockRow(cfg).post), db) + Need(Relocate(LockRow(cfg).foreign, LockRow(cfg)), db)
  }

  /** done is a prefix of the plan, all of it on success, and accounts for the new state. */
  ghost predicate FollowsPlan(plan: seq<Event>, before: Db, after: Db, done: seq<Event>, ok: bool) {
    && done <= plan
    && (ok ==> done == plan)
    && after == Run(before, done)
  }

  /** Every catalog row is there unless disabled, and so is Lock Session when it is in scope. */
  ghost predicate RowsPresent(cfg: Config, draft: Draft, db: Db)
    requires cfg.table != []
  {
    && (forall i | 0 <= i < |cfg.catalog| :: cfg.catalog[i].id in db || cfg.catalog[i].id in draft.disabled)
    && (FocusAuthentic(cfg, draft) ==> LockRow(cfg).foreign in db)
  }

  /** The full plan ends in an image that the finish accepts exactly when Lock Session, if in scope,
      held an old chord or the target chord. */
  lemma PlanReachesImage(cfg: Config, draft: Draft, db: Db, before: seq<Tuple>, final: seq<Tuple>)
    requires WellFormed(cfg) && RowsPresent(cfg, draft, db)
    requires Enumerates(before, db) && Enumerates(final, Run(db, Plan(cfg, draft, db)))
    ensures FinalImage(cfg, draft, Images(cfg, before), final) <==>
            (FocusAuthentic(cfg, draft) ==> LockRelocatable(LockRow(cfg), db[LockRow(cfg).foreign].active))
  {
    var after := Run(db, Plan(cfg, draft, db));
    RunKeepsIds(db, Plan(cfg, draft, db));
    forall i | 0 <= i < |cfg.catalog|
      ensures RowSettled(cfg, draft, cfg.catalog[i], Images(cfg, before)[i], Find(final, cfg.catalog[i].id))
    {
      RowReached(cfg, draft, db, before, final, i);
    }
    if FocusAuthentic(cfg, draft) {
      PlanReachesLock(cfg, draft, db);
      LockReached(LockRow(cfg), db[LockRow(cfg).foreign].active);
    }
  }

  lemma RowReached(cfg: Config, draft: Draft, db: Db, before: seq<Tuple>, final: seq<Tuple>, i: nat)
    requires WellFormed(cfg) && RowsPresent(cfg, draft, db) && i < |cfg.catalog|
    requires Enumerates(before, db) && Enumerates(final, Run(db, Plan(cfg, draft, db)))
    ensures RowSettled(cfg, draft, cfg.catalog[i], Images(cfg, before)[i], Find(final, cfg.catalog[i].id))
  {
    var id := cfg.catalog[i].id;
    RunKeepsIds(db, Plan(cfg, draft, db));
    assert Images(cfg, before)[i] == ActiveIn(Find(before, id));
    if id in db {
      PlanReachesRow(cfg, draft, db, i);
    }
  }

  lemma LockReached(row: ConflictRow, pre: seq<Key>)
    requires |row.target| == 1 && forall k <- row.foreignPre :: k !in row.target
    ensures (!HoldsAny(LockPost(row, pre), row.foreignPre) && forall k <- row.target :: k in LockPost(row, pre)) <==> LockRelocatable(row, pre)
  {
    LockPostRelocates(row, pre);
    var target := row.target[0];
    assert row.target == [target];
    assert HoldsAny(pre, row.target) <==> target in pre;
  }

  /** At every intermediate state of an apply that follows its plan, Lock Session still holds one of
      its chords if it did at the start, and has changed only under a settled focus-right. */
  lemma LockHeldThroughoutApply(cfg: Config, draft: Draft, db: Db, after: Db, done: seq<Event>, ok: bool, k: nat)
    requires WellFormed(cfg) && FollowsPlan(Plan(cfg, draft, db), db, after, done, ok) && k <= |done|
    requires LockRow(cfg).project in db && LockHeld(cfg, db)
    ensures LockSafe(cfg, db, Run(db, done[..k])) && LockSafe(cfg, db, after)
  {
    assert done[..k] == Plan(cfg, draft, db)[..k] && done == Plan(cfg, draft, db)[..|done|];
    LockNeverLost(cfg, draft, db, k);
    LockNeverLost(cfg, draft, db, |done|);
  }

  /** Writes of the row phases: own rows outside the lock's pair, each at most once. */
  ghost predicate RowWrites(cfg: Config, draft: Draft, done: seq<Event>)
    requires cfg.table != []
  {
    && (forall e <- done :: e.Assign? && exists s <- RowSlots(cfg, draft) :: s.id == e.id)
    && (forall i, j :: 0 <= i < j < |done| ==> done[i].id != done[j].id)
    && |done| <= |RowSlots(cfg, draft)|
  }

  lemma NoRowsWritten(cfg: Config, draft: Draft, quiet: bool, before: Db, after: Db)
    requires cfg.table != [] && (quiet ==> after == before)
    ensures RowsWritten(cfg, draft, quiet, before, after, [], false)
  {
  }

  lemma StepSlots(cfg: Config, draft: Draft, i: nat, ts: seq<Tuple>)
    requires cfg.table != [] && i < |cfg.catalog|
    ensures var entry := cfg.catalog[i];
            && NeedsIn(AssignSlots(cfg, draft, cfg.catalog[..i + 1]), ts) ==
               NeedsIn(AssignSlots(cfg, draft, cfg.catalog[..i]), ts) +
               (if !draft.authentic || entry.id in draft.disabled || entry.id == LockRow(cfg).project then []
                else NeedIn(Own(entry.id, ExpectedPost(cfg, entry)), Find(ts, entry.id)))
            && NeedsIn(ClearSlots(draft, cfg.catalog[..i + 1]), ts) ==
               NeedsIn(ClearSlots(draft, cfg.catalog[..i]), ts) +
               (if entry.id in draft.disabled then NeedIn(Drop(entry.id), Find(ts, entry.id)) else [])
  {
    var entry := cfg.catalog[i];
    assert cfg.catalog[..i + 1][..i] == cfg.catalog[..i];
    var a, c := AssignSlots(cfg, draft, cfg.catalog[..i]), ClearSlots(draft, cfg.catalog[..i]);
    assert (a + [Own(entry.id, ExpectedPost(cfg, entry))])[..|a|] == a && a + [] == a;
    assert (c + [Drop(entry.id)])[..|c|] == c && c + [] == c;
  }

  /** Two runs of writes one after the other: a prefix of the first plan, then, once that is done, of the second. */
  lemma InTurn(start: seq<Event>, mid: seq<Event>, now: seq<Event>, a: seq<Event>, b: seq<Event>, filled: bool, ok: bool)
    requires start <= mid <= now
    requires mid[|start|..] <= a && (filled ==> mid[|start|..] == a)
    requires if filled then now[|mid|..] <= b && (ok ==> now[|mid|..] == b) else now == mid && !ok
    ensures now[|start|..] == mid[|start|..] + now[|mid|..]
    ensures now[|start|..] <= a + b && (ok ==> now[|start|..] == a + b)
  {
    if !filled {
      assert now[|mid|..] == [];
      assert mid[|start|..] + [] == mid[|start|..];
    }
  }

  /** A prefix of the assignments followed by the clears is a prefix of the row plan. */
  lemma RowsDone(cfg: Config, draft: Draft, ts: seq<Tuple>, quiet: bool, before: Db, after: Db, done: seq<Event>, ok: bool)
    requires WellFormed(cfg)
    requires var plan := Events(NeedsIn(AssignSlots(cfg, draft, cfg.catalog), ts)) + Events(NeedsIn(ClearSlots(draft, cfg.catalog), ts));
             done <= plan && (ok ==> done == plan)
    requires quiet ==> Enumerates(ts, before) && after == Run(before, done)
    ensures RowsWritten(cfg, draft, quiet, before, after, done, ok)
  {
    var a, c := AssignSlots(cfg, draft, cfg.catalog), ClearSlots(draft, cfg.catalog);
    NeedsInConcat(a, c, ts);
    EventsConcat(NeedsIn(a, ts), NeedsIn(c, ts));
    RowSlotsDistinct(cfg, draft);
    PrefixIsRowWrites(cfg, draft, ts, done);
    if quiet {
      RowsFollowPlan(cfg, draft, ts, before, after, done, ok);
    }
  }

  /** Keys for Lock Session: focus-right was read at its post, and Lock Session with the list that these relocate. */
  ghost predicate LockGate(cfg: Config, ts: seq<Tuple>, keys: seq<Key>)
    requires cfg.table != []
  {
    var focus, lock := Find(ts, LockRow(cfg).project), Find(ts, LockRow(cfg).foreign);
    focus.One? && focus.tuple.active == LockRow(cfg).post && lock.One? && lock.tuple.active != keys && keys == LockPost(LockRow(cfg), lock.tuple.active)
  }

  /** A write that the draft asks for on what was read: Lock Session through its gate; a disabled row to nothing and an
      Authentic one to its post, each, but for an Authentic focus-right, read in another state. */
  ghost predicate ShownWrite(cfg: Config, draft: Draft, e: Event, images: seq<seq<Tuple>>)
    requires cfg.table != []
  {
    e.Assign? &&
    if e.id == LockRow(cfg).foreign then FocusAuthentic(cfg, draft) && exists ts <- images :: LockGate(cfg, ts, e.keys)
    else
      && (exists entry <- cfg.catalog :: entry.id == e.id && WantedOf(cfg, draft, entry, e.keys))
      && ((FocusAuthentic(cfg, draft) && e.id == LockRow(cfg).project) || exists ts <- images :: ReadOtherwise(ts, e))
  }

  ghost predicate WantedOf(cfg: Config, draft: Draft, entry: CatalogEntry, keys: seq<Key>) {
    if entry.id in draft.disabled then keys == [] else draft.authentic && AtPost(cfg, entry, keys)
  }

  ghost predicate ReadOtherwise(ts: seq<Tuple>, e: Event) {
    Find(ts, e.id).One? && Find(ts, e.id).tuple.active != e.keys
  }

  ghost predicate ShownWrites(cfg: Config, draft: Draft, done: seq<Event>, images: seq<seq<Tuple>>)
    requires cfg.table != []
  {
    forall e <- done :: ShownWrite(cfg, draft, e, images)
  }

  lemma ShownMore(cfg: Config, draft: Draft, e: Event, images: seq<seq<Tuple>>, more: seq<seq<Tuple>>)
    requires cfg.table != [] && ShownWrite(cfg, draft, e, images) && forall ts <- images :: ts in more
    ensures ShownWrite(cfg, draft, e, more)
  {
    hide LockGate, WantedOf, ReadOtherwise;
  }

  lemma ShownThen(cfg: Config, draft: Draft, start: seq<Event>, mid: seq<Event>, now: seq<Event>,
                  seen: seq<seq<Tuple>>, between: seq<seq<Tuple>>, images: seq<seq<Tuple>>)
    requires cfg.table != [] && start <= mid <= now && seen <= between <= images
    requires ShownWrites(cfg, draft, mid[|start|..], between[|seen|..]) && ShownWrites(cfg, draft, now[|mid|..], images[|between|..])
    ensures ShownWrites(cfg, draft, now[|start|..], images[|seen|..])
  {
    hide ShownWrite;
    assert now[|start|..] == mid[|start|..] + now[|mid|..] && images[|seen|..] == between[|seen|..] + images[|between|..];
    forall e | e in now[|start|..]
      ensures ShownWrite(cfg, draft, e, images[|seen|..])
    {
      if e in mid[|start|..] {
        ShownMore(cfg, draft, e, between[|seen|..], images[|seen|..]);
      } else {
        ShownMore(cfg, draft, e, images[|between|..], images[|seen|..]);
      }
    }
  }

  lemma ShownWider(cfg: Config, draft: Draft, done: seq<Event>, images: seq<seq<Tuple>>, more: seq<seq<Tuple>>)
    requires cfg.table != [] && ShownWrites(cfg, draft, done, images) && forall ts <- images :: ts in more
    ensures ShownWrites(cfg, draft, done, more)
  {
    hide ShownWrite;
    forall e | e in done
      ensures ShownWrite(cfg, draft, e, more)
    {
      ShownMore(cfg, draft, e, images, more);
    }
  }

  lemma NoneShown(cfg: Config, draft: Draft, log: seq<Event>)
    requires cfg.table != []
    ensures log[|log|..] == [] && forall images :: ShownWrites(cfg, draft, log[|log|..], images)
  {
  }

  lemma FocusShown(cfg: Config, draft: Draft, done: seq<Event>, images: seq<seq<Tuple>>)
    requires WellFormed(cfg) && FocusAuthentic(cfg, draft) && (done == [] || done == [Assign(LockRow(cfg).project, LockRow(cfg).post)])
    ensures ShownWrites(cfg, draft, done, images)
  {
    var i :| 0 <= i < |cfg.catalog| && cfg.catalog[i].id == LockRow(cfg).project;
    var entry := cfg.catalog[i];
    assert entry in cfg.catalog;
    ExpectedPostIsAtPost(cfg, entry, LockRow(cfg).post);
  }

  lemma LockWriteShown(cfg: Config, draft: Draft, done: seq<Event>, ts: seq<Tuple>, images: seq<seq<Tuple>>)
    requires cfg.table != [] && FocusAuthentic(cfg, draft) && ts in images
    requires done == [] || (|done| == 1 && done[0].Assign? && done[0].id == LockRow(cfg).foreign && LockGate(cfg, ts, done[0].keys))
    ensures ShownWrites(cfg, draft, done, images)
  {
  }

  lemma RowsShown(cfg: Config, draft: Draft, ts: seq<Tuple>, done: seq<Event>, images: seq<seq<Tuple>>)
    requires WellFormed(cfg) && ts in images
    requires done <= Events(NeedsIn(AssignSlots(cfg, draft, cfg.catalog), ts)) + Events(NeedsIn(ClearSlots(draft, cfg.catalog), ts))
    ensures ShownWrites(cfg, draft, done, images)
  {
    hide ShownWrite, NeedsIn, AssignSlots, ClearSlots;
    var a, c := AssignSlots(cfg, draft, cfg.catalog), ClearSlots(draft, cfg.catalog);
    forall e | e in done
      ensures ShownWrite(cfg, draft, e, images)
    {
      if e in Events(NeedsIn(a, ts)) {
        var p :| p in NeedsIn(a, ts) && e == Assign(p.id, p.keys);
        AssignShown(cfg, draft, ts, p, images);
      } else {
        var p :| p in NeedsIn(c, ts) && e == Assign(p.id, p.keys);
        ClearShown(cfg, draft, ts, p, images);
      }
    }
  }

  lemma AssignShown(cfg: Config, draft: Draft, ts: seq<Tuple>, p: Pending, images: seq<seq<Tuple>>)
    requires WellFormed(cfg) && ts in images && p in NeedsIn(AssignSlots(cfg, draft, cfg.catalog), ts)
    ensures ShownWrite(cfg, draft, Assign(p.id, p.keys), images)
  {
    hide AtPost, ExpectedPost, AssignSlots, NeedsIn;
    var a, e := AssignSlots(cfg, draft, cfg.catalog), Assign(p.id, p.keys);
    NeedsInIds(a, ts, p);
    AssignSlotIds(cfg, draft, cfg.catalog);
    var s :| s in a && s.id == p.id && p in NeedIn(s, Find(ts, s.id));
    var entry :| entry in cfg.catalog && entry.id == s.id && s.post == ExpectedPost(cfg, entry);
    ExpectedPostIsAtPost(cfg, entry, p.keys);
    assert ReadOtherwise(ts, e) && WantedOf(cfg, draft, entry, e.keys) && InCatalog(cfg, e.id);
  }

  lemma ClearShown(cfg: Config, draft: Draft, ts: seq<Tuple>, p: Pending, images: seq<seq<Tuple>>)
    requires WellFormed(cfg) && ts in images && p in NeedsIn(ClearSlots(draft, cfg.catalog), ts)
    ensures ShownWrite(cfg, draft, Assign(p.id, p.keys), images)
  {
    hide AtPost, ExpectedPost, ClearSlots, NeedsIn;
    var c, e := ClearSlots(draft, cfg.catalog), Assign(p.id, p.keys);
    NeedsInIds(c, ts, p);
    ClearSlotIds(draft, cfg.catalog);
    var s :| s in c && s.id == p.id && p in NeedIn(s, Find(ts, s.id));
    var entry :| entry in cfg.catalog && entry.id == s.id;
    assert ReadOtherwise(ts, e) && WantedOf(cfg, draft, entry, e.keys) && InCatalog(cfg, e.id);
  }

  lemma RowsFollowPlan(cfg: Config, draft: Draft, ts: seq<Tuple>, db: Db, after: Db, done: seq<Event>, ok: bool)
    requires cfg.table != [] && Enumerates(ts, db)
    requires done <= Events(NeedsIn(RowSlots(cfg, draft), ts))
    requires ok ==> done == Events(NeedsIn(RowSlots(cfg, draft), ts))
    requires after == Run(db, done)
    ensures FollowsPlan(Needs(RowSlots(cfg, draft), db), db, after, done, ok)
  {
    NeedsInFaithful(RowSlots(cfg, draft), ts, db);
  }

  lemma PrefixIsRowWrites(cfg: Config, draft: Draft, ts: seq<Tuple>, done: seq<Event>)
    requires WellFormed(cfg) && DistinctSlots(RowSlots(cfg, draft))
    requires done <= Events(NeedsIn(RowSlots(cfg, draft), ts))
    ensures RowWrites(cfg, draft, done)
  {
    var pending := NeedsIn(RowSlots(cfg, draft), ts);
    NeedsInDistinct(RowSlots(cfg, draft), ts);
    forall i | 0 <= i < |done|
      ensures done[i].Assign? && exists s <- RowSlots(cfg, draft) :: s.id == done[i].id
    {
      assert done[i] == Assign(pending[i].id, pending[i].keys);
      NeedsInIds(RowSlots(cfg, draft), ts, pending[i]);
    }
    forall i, j | 0 <= i < j < |done|
      ensures done[i].id != done[j].id
    {
      assert done[i] == Assign(pending[i].id, pending[i].keys) && done[j] == Assign(pending[j].id, pending[j].keys);
    }
  }

  lemma SnapshotFits(cfg: Config, draft: Draft, heard: Readings)
    requires WellFormed(cfg) && TuplesReadable(heard.tuples) && SnapshotOf(cfg, draft, heard).Some?
    ensures var snap := SnapshotOf(cfg, draft, heard).value;
            && Fits(cfg, draft, snap) && snap.images == Images(cfg, heard.tuples) && snap.owner == heard.owner
            && (snap.lock.Some? ==> Find(heard.tuples, LockRow(cfg).project) == One(snap.focus.value))
  {
  }

  /** A snapshot of an undisturbed state reads its focus as it is. */
  lemma FocusReadAsIs(cfg: Config, draft: Draft, heard: Readings, db: Db, owner: string, keyed: Key -> Keyed)
    requires WellFormed(cfg) && TuplesReadable(heard.tuples) && SnapshotOf(cfg, draft, heard).Some? && HeardOf(cfg, draft, heard, db, owner, keyed)
    ensures FocusAuthentic(cfg, draft) ==> FocusIs(cfg, FocusReading(SnapshotOf(cfg, draft, heard).value), db)
    ensures SnapshotOf(cfg, draft, heard).value.owner == owner
  {
    SnapshotFits(cfg, draft, heard);
    var id := LockRow(cfg).project;
    assert Find(heard.tuples, id) == if id in db then One(Tuple(id, db[id].names, db[id].active)) else Missing;
  }

  lemma PhasesAreProjectWrites(cfg: Config, draft: Draft, one: seq<Event>, two: seq<Event>)
    requires WellFormed(cfg)
    requires one == [] || (FocusAuthentic(cfg, draft) && LockWrites(cfg, one))
    requires RowWrites(cfg, draft, two)
    ensures ProjectWrites(cfg, draft, one + two)
  {
    forall e | e in two
      ensures InCatalog(cfg, e.id) && e.id != LockRow(cfg).foreign
      ensures FocusAuthentic(cfg, draft) ==> e.id != LockRow(cfg).project
    {
      var s :| s in RowSlots(cfg, draft) && s.id == e.id;
      RowSlotIds(cfg, draft, s);
    }
    SlotsBounded(cfg, draft);
    assert |Slots(cfg, draft)| == |LockSlots(cfg, draft)| + |RowSlots(cfg, draft)|;
    var done := one + two;
    forall i, j | 0 <= i < j < |done|
      ensures done[i].id != done[j].id
    {
      if i < |one| <= j {
        assert done[j] in two;
      }
    }
  }

  lemma PhasesFollowPlan(cfg: Config, draft: Draft, db: Db, mid: Db, after: Db, one: seq<Event>, two: seq<Event>, locked: bool, ok: bool)
    requires WellFormed(cfg)
    requires if FocusAuthentic(cfg, draft) then LockWrites(cfg, one) && FollowsPlan(LockNeedsOf(cfg, db), db, mid, one, locked)
             else one == [] && locked && mid == db
    requires if locked then FollowsPlan(Needs(RowSlots(cfg, draft), mid), mid, after, two, ok) else two == [] && after == mid && !ok
    ensures FollowsPlan(Plan(cfg, draft, db), db, after, one + two, ok)
  {
    NeedsConcat(LockSlots(cfg, draft), RowSlots(cfg, draft), db);
    if FocusAuthentic(cfg, draft) {
      LockNeeds(cfg, draft, db);
    }
    RowNeedsSurviveLock(cfg, draft, db, one);
    RunConcat(db, one, two);
    if !locked {
      assert one + two == one;
    } else {
      assert one == Needs(LockSlots(cfg, draft), db);
    }
  }

  /** The lock pair's writes do not change what the rows need. */
  lemma RowNeedsSurviveLock(cfg: Config, draft: Draft, db: Db, one: seq<Event>)
    requires WellFormed(cfg)
    requires one == [] || (FocusAuthentic(cfg, draft) && LockWrites(cfg, one))
    ensures Needs(RowSlots(cfg, draft), Run(db, one)) == Needs(RowSlots(cfg, draft), db)
  {
    forall s | s in RowSlots(cfg, draft)
      ensures s.id in Run(db, one) <==> s.id in db
      ensures s.id in db ==> Run(db, one)[s.id] == db[s.id]
    {
      RowSlotIds(cfg, draft, s);
      RunElsewhere(db, one, s.id);
    }
    NeedsLocal(RowSlots(cfg, draft), Run(db, one), db);
  }
}
