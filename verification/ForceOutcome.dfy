// When a Force goes through: on a daemon nobody else writes, whose keyed answers
// list exactly the actions that hold a key and whose actions have distinct
// joined identities, clearing the confirmed holders leaves a state in which the
// project's own writes can begin.

module ForceOutcome {
  import opened Prelude
  import opened Shortcuts
  import opened ShortcutStore
  import opened HolderScan
  import opened HolderOrder
  import opened Preflight
  import opened ApplyPlan
  import opened ForceRecord
  import opened ReconcilerFacts
  import opened ExactDaemon
  import Sorting

  /** No two actions outside the catalog and the lock share a joined identity. */
  ghost predicate TellsApart(cfg: Config, db: Db)
    requires cfg.table != []
  {
    forall a, b | a in db && b in db && Unrelated(cfg, a) && Unrelated(cfg, b) && JoinedId(a) == JoinedId(b) :: a == b
  }

  /** The confirmed holders without the keys they were confirmed to lose. */
  function Cleared(db: Db, rows: seq<ClearRow>): Db {
    if rows == [] then db
    else
      var last := rows[|rows| - 1];
      Put(Cleared(db, rows[..|rows| - 1]), last.id, last.remainder)
  }

  /** The row shows its action as it is, under labels that can be sent. */
  predicate RowCurrent(db: Db, row: ClearRow) {
    row.id in db && db[row.id].active == row.active && LabelValid(row.names) && KeysValid(row.remainder)
  }

  ghost predicate RowsCurrent(db: Db, rows: seq<ClearRow>) {
    && (forall row <- rows :: RowCurrent(db, row))
    && forall i, j :: 0 <= i < j < |rows| ==> rows[i].id != rows[j].id
  }

  /** Cleared actions hold their remainders, everything else is as it was. */
  lemma {:induction false} ClearedAt(db: Db, rows: seq<ClearRow>)
    requires RowsCurrent(db, rows)
    ensures Cleared(db, rows).Keys == db.Keys
    ensures forall id <- db :: Cleared(db, rows)[id].(active := []) == db[id].(active := [])
    ensures forall row <- rows :: Cleared(db, rows)[row.id].active == row.remainder
    ensures forall id <- db | (forall row <- rows :: row.id != id) :: Cleared(db, rows)[id] == db[id]
    decreases |rows|
  {
    if rows != [] {
      var front, last := rows[..|rows| - 1], rows[|rows| - 1];
      assert rows == front + [last];
      assert last in rows;
      ClearedAt(db, front);
    }
  }

  lemma ClearedListable(db: Db, rows: seq<ClearRow>)
    requires RowsCurrent(db, rows) && Listable(db)
    ensures Listable(Cleared(db, rows))
  {
    ClearedAt(db, rows);
    var after := Cleared(db, rows);
    assert |after.Keys| == |db.Keys|;
    forall id | id in after
      ensures EntryValid(id, after[id])
    {
      assert EntryValid(id, db[id]);
      if row :| row in rows && row.id == id {
        assert RowCurrent(db, row);
      }
    }
  }

  lemma ClearedLists(order: seq<ActionId>, db: Db, rows: seq<ClearRow>)
    requires RowsCurrent(db, rows) && Lists(order, db)
    ensures Lists(order, Cleared(db, rows))
  {
    ClearedAt(db, rows);
  }

  /** The daemon's own answers show the row as it is, and the row can be sent. */
  ghost predicate HolderClearable(order: seq<ActionId>, db: Db, row: ClearRow) {
    Lists(order, db) && Listable(db) && IdValid(row.id) && RowCurrent(db, row)
  }

  ghost predicate HoldersClearable(order: seq<ActionId>, db: Db, rows: seq<ClearRow>) {
    Lists(order, db) && Listable(db) && (forall row <- rows :: IdValid(row.id)) && RowsCurrent(db, rows)
  }

  lemma NoneCleared(db: Db, rows: seq<ClearRow>)
    ensures Cleared(db, rows[..0]) == db
  {
  }

  /** One more holder cleared; the ones after it are as they were. */
  lemma ClearedStep(order: seq<ActionId>, db: Db, rows: seq<ClearRow>, i: nat)
    requires i < |rows|
    ensures Put(Cleared(db, rows[..i]), rows[i].id, rows[i].remainder) == Cleared(db, rows[..i + 1])
    ensures HoldersClearable(order, db, rows) ==> HolderClearable(order, Cleared(db, rows[..i]), rows[i])
  {
    assert rows[..i + 1][..i] == rows[..i];
    if HoldersClearable(order, db, rows) {
      assert RowsCurrent(db, rows[..i]);
      ClearedAt(db, rows[..i]);
      ClearedListable(db, rows[..i]);
      ClearedLists(order, db, rows[..i]);
      assert rows[i] in rows && RowCurrent(db, rows[i]);
    }
  }

  /** The first key a current row loses is answered with that row's list. */
  lemma ClearableListed(order: seq<ActionId>, db: Db, row: ClearRow, required: seq<Key>)
    requires HolderClearable(order, db, row) && RowSound(row, required)
    ensures Writable(row.id, row.names, row.remainder)
    ensures HoldersReadable(ExactAnswers(order, db)(row.removals[0]).holders)
    ensures FirstListing(ExactAnswers(order, db)(row.removals[0]).holders, row.id) == Some(Holder(row.id, row.active, db[row.id].defaults))
  {
    ClearSplits(row.active, required);
    assert row.removals[0] in Conflicting(row.active, required);
    HeldReadable(order, db, row.removals[0]);
    FirstHeld(order, db, row.removals[0], row.id);
  }

  // ---- exact keyed answers -------------------------------------------------------

  /** The first listing of an action that holds the key is that action as it is. */
  lemma {:induction false} FirstHeld(order: seq<ActionId>, db: Db, key: Key, id: ActionId)
    requires id in order && id in db && key in db[id].active
    ensures FirstListing(HeldBy(order, db, key), id) == Some(Holder(id, db[id].active, db[id].defaults))
  {
    if order[0] != id {
      FirstHeld(order[1..], db, key, id);
      var rest := HeldBy(order[1..], db, key);
      assert HeldBy(order, db, key) == rest || HeldBy(order, db, key)[1..] == rest;
    }
  }

  lemma HeldReadable(order: seq<ActionId>, db: Db, key: Key)
    requires Lists(order, db) && Listable(db)
    ensures HoldersReadable(ExactAnswers(order, db)(key).holders)
  {
    HeldByExact(order, db, key);
    OrderCounts(order, db);
    assert forall id <- db :: EntryValid(id, db[id]);
  }

  // ---- one state, one preview ------------------------------------------------------

  /** The names an enumeration gives to a joined identity are those of some action that goes by it. */
  lemma {:induction false} NameGiver(cfg: Config, ts: seq<Tuple>, joined: string) returns (t: Tuple)
    requires cfg.table != [] && joined in NamesOf(cfg, ts)
    ensures t in ts && Unrelated(cfg, t.id) && JoinedId(t.id) == joined && t.names == NamesOf(cfg, ts)[joined]
    decreases |ts|
  {
    var front, last := ts[..|ts| - 1], ts[|ts| - 1];
    if Unrelated(cfg, last.id) && JoinedId(last.id) == joined {
      t := last;
    } else {
      t := NameGiver(cfg, front, joined);
    }
  }

  lemma {:induction false} NameGiven(cfg: Config, ts: seq<Tuple>, t: Tuple)
    requires cfg.table != [] && t in ts && Unrelated(cfg, t.id)
    ensures JoinedId(t.id) in NamesOf(cfg, ts)
    decreases |ts|
  {
    var front, last := ts[..|ts| - 1], ts[|ts| - 1];
    assert ts == front + [last];
    if t in front {
      NameGiven(cfg, front, t);
    }
  }

  /** With distinct joined identities the names do not depend on the order of the enumeration. */
  lemma SameNames(cfg: Config, a: seq<Tuple>, b: seq<Tuple>, order: seq<ActionId>, db: Db)
    requires cfg.table != [] && TellsApart(cfg, db) && Enumerates(a, db) && Enumerates(b, db) && Lists(order, db)
    ensures NamesOf(cfg, a) == NamesOf(cfg, b)
  {
    NamesWithin(cfg, a, b, order, db);
    NamesWithin(cfg, b, a, order, db);
  }

  lemma NamesWithin(cfg: Config, a: seq<Tuple>, b: seq<Tuple>, order: seq<ActionId>, db: Db)
    requires cfg.table != [] && TellsApart(cfg, db) && Enumerates(a, db) && Enumerates(b, db) && Lists(order, db)
    ensures forall joined <- NamesOf(cfg, a) :: joined in NamesOf(cfg, b) && NamesOf(cfg, b)[joined] == NamesOf(cfg, a)[joined]
  {
    hide Enumerates, Lists, NamesOf;
    EnumerationIs(a, order, db);
    EnumerationIs(b, order, db);
    forall joined | joined in NamesOf(cfg, a)
      ensures joined in NamesOf(cfg, b) && NamesOf(cfg, b)[joined] == NamesOf(cfg, a)[joined]
    {
      var t := NameGiver(cfg, a, joined);
      NameGiven(cfg, b, t);
      var u := NameGiver(cfg, b, joined);
    }
  }

  /** An enumeration holds exactly the tuples of the state. */
  lemma EnumerationIs(ts: seq<Tuple>, order: seq<ActionId>, db: Db)
    requires Enumerates(ts, db) && Lists(order, db)
    ensures forall t <- ts :: t.id in db && t == Tuple(t.id, db[t.id].names, db[t.id].active)
    ensures forall id <- db :: Tuple(id, db[id].names, db[id].active) in ts
  {
    forall t | t in ts
      ensures t.id in db && t == Tuple(t.id, db[t.id].names, db[t.id].active)
    {
      FindPresent(ts, t);
      assert Find(ts, t.id) == if t.id in db then One(Tuple(t.id, db[t.id].names, db[t.id].active)) else Missing;
    }
    forall id | id in db
      ensures Tuple(id, db[id].names, db[id].active) in ts
    {
      assert Find(ts, id) == if id in db then One(Tuple(id, db[id].names, db[id].active)) else Missing;
    }
  }

  /** Whichever way one state is read, its snapshot is the same. */
  lemma SameSnapshot(cfg: Config, draft: Draft, a: Readings, b: Readings, order: seq<ActionId>, db: Db, owner: string)
    requires WellFormed(cfg) && Listable(db) && Lists(order, db) && TellsApart(cfg, db)
    requires HeardOf(cfg, draft, a, db, owner, ExactAnswers(order, db)) && HeardOf(cfg, draft, b, db, owner, ExactAnswers(order, db))
    ensures SnapshotOf(cfg, draft, a) == SnapshotOf(cfg, draft, b)
  {
    hide WellFormed, Listable, Lists, TellsApart, Enumerable, ScanKeys, NamesOf, Images, Presence, HeldImages, HeldPresence, LockRelocatable,
         RequiredKeys, ExactAnswers;
    TableThere(cfg);
    EnumerableExactly(cfg, draft, a.tuples, order, db);
    EnumerableExactly(cfg, draft, b.tuples, order, db);
    ImagesHeld(cfg, db, a.tuples);
    ImagesHeld(cfg, db, b.tuples);
    SameNames(cfg, a.tuples, b.tuples, order, db);
    forall id
      ensures Find(a.tuples, id) == Find(b.tuples, id)
    {
      assert Find(a.tuples, id) == if id in db then One(Tuple(id, db[id].names, db[id].active)) else Missing;
    }
  }

  lemma TableThere(cfg: Config)
    requires WellFormed(cfg)
    ensures cfg.table != []
  {
  }

  // ---- the rows of a preview -----------------------------------------------------------

  /** What a confirmation is checked for before anything is read. */
  ghost predicate WellConfirmed(cfg: Config, confirmed: Preview, draft: Draft)
    requires cfg.table != []
  {
    && DraftKnown(cfg, draft) && confirmed.forceable && 0 < |confirmed.rows| <= MAX_TUPLES
    && confirmed.disabled == draft.disabled && confirmed.authentic == draft.authentic
    && (forall row <- confirmed.rows :: RowInOrder(row, ForcedKeys(cfg, draft, confirmed)))
    && forall i, j :: 0 <= i < j < |confirmed.rows| ==> JoinedId(confirmed.rows[i].id) != JoinedId(confirmed.rows[j].id)
  }

  ghost predicate RowInOrder(row: ClearRow, required: seq<Key>) {
    && IdValid(row.id) && LabelValid(row.names) && KeysValid(row.active) && KeysValid(row.removals) && KeysValid(row.remainder)
    && row.active != [] && RowSound(row, required)
  }

  lemma {:induction false} FilterFits(p: Key -> bool, keys: seq<Key>)
    ensures |Filter(p, keys)| <= |keys| && forall k <- Filter(p, keys) :: k in keys
  {
    if keys != [] { FilterFits(p, keys[1..]); }
  }

  /** What is removed and what is kept of a list within bounds is within bounds. */
  lemma SplitFits(active: seq<Key>, required: seq<Key>)
    requires KeysValid(active)
    ensures KeysValid(Conflicting(active, required)) && KeysValid(Remainder(active, required))
    ensures Conflicting(active, required) != [] ==> active != []
  {
    FilterFits((k: Key) => k in required, active);
    FilterFits((k: Key) => k !in required, active);
    DedupShorter(Filter((k: Key) => k in required, active));
    ClearSplits(active, required);
  }

  /** A row found in the state's own answers shows its action as it is and is in order. */
  lemma RowOfState(cfg: Config, draft: Draft, heard: Readings, order: seq<ActionId>, db: Db, owner: string, row: ClearRow)
    requires WellFormed(cfg) && Listable(db) && Lists(order, db) && SnapshotOf(cfg, draft, heard).Some?
    requires HeardOf(cfg, draft, heard, db, owner, ExactAnswers(order, db)) && row in SnapshotOf(cfg, draft, heard).value.rows
    ensures RowCurrent(db, row) && Unrelated(cfg, row.id) && RowInOrder(row, RequiredFor(cfg, draft, heard.tuples))
  {
    hide SnapshotOf, WellFormed, Enumerates, Lists;
    TableThere(cfg);
    var required := RequiredFor(cfg, draft, heard.tuples);
    RowTraced(cfg, draft, heard, order, db, owner, row);
    assert EntryValid(row.id, db[row.id]);
    SplitFits(row.active, required);
    LabelsFit(cfg, heard.tuples, order, db);
  }

  /** Where a row comes from, and what it is made of. */
  lemma RowTraced(cfg: Config, draft: Draft, heard: Readings, order: seq<ActionId>, db: Db, owner: string, row: ClearRow)
    requires WellFormed(cfg) && Lists(order, db) && SnapshotOf(cfg, draft, heard).Some?
    requires HeardOf(cfg, draft, heard, db, owner, ExactAnswers(order, db)) && row in SnapshotOf(cfg, draft, heard).value.rows
    ensures row.id in db && db[row.id].active == row.active && Unrelated(cfg, row.id)
    ensures RowSound(row, RequiredFor(cfg, draft, heard.tuples))
    ensures row.names == if JoinedId(row.id) in NamesOf(cfg, heard.tuples) then NamesOf(cfg, heard.tuples)[JoinedId(row.id)] else ""
  {
    hide WellFormed, Lists, Enumerates, NamesOf, ScanKeys, RequiredFor;
    TableThere(cfg);
    var required, names := RequiredFor(cfg, draft, heard.tuples), NamesOf(cfg, heard.tuples);
    var found := ScanKeys(cfg, names, required, heard.replies).value;
    SortRowsEmpty(found.rows);
    ScanIsExact(cfg, names, required, heard.replies);
    RowFromState(cfg, names, required, order, db, heard.replies, found, row);
  }

  lemma RowFromState(cfg: Config, names: Names, required: seq<Key>, order: seq<ActionId>, db: Db, replies: seq<Keyed>, found: Scan, row: ClearRow)
    requires cfg.table != [] && replies == Answers(ExactAnswers(order, db), required)
    requires ScanExact(cfg, names, required, replies, found) && row in found.rows
    ensures row.id in db && db[row.id].active == row.active && Unrelated(cfg, row.id) && RowSound(row, required)
    ensures row.names == if JoinedId(row.id) in names then names[JoinedId(row.id)] else ""
  {
    assert FromListing(cfg, required, replies, row);
    var i: nat, h :| Listed(cfg, required, replies, i, h) && h.id == row.id && h.active == row.active;
    HeldByExact(order, db, required[i]);
  }

  lemma LabelsFit(cfg: Config, ts: seq<Tuple>, order: seq<ActionId>, db: Db)
    requires cfg.table != [] && Enumerates(ts, db) && Lists(order, db) && Listable(db)
    ensures forall joined <- NamesOf(cfg, ts) :: LabelValid(NamesOf(cfg, ts)[joined])
  {
    EnumerationIs(ts, order, db);
    forall joined | joined in NamesOf(cfg, ts)
      ensures LabelValid(NamesOf(cfg, ts)[joined])
    {
      var t := NameGiver(cfg, ts, joined);
      assert EntryValid(t.id, db[t.id]);
    }
  }

  /** A forceable preview of the state passes the checks on a confirmation, and its rows are current. */
  lemma PreviewInOrder(cfg: Config, draft: Draft, heard: Readings, order: seq<ActionId>, db: Db, owner: string, preview: Preview)
    requires WellFormed(cfg) && Listable(db) && Lists(order, db) && DraftKnown(cfg, draft) && preview.forceable
    requires HeardOf(cfg, draft, heard, db, owner, ExactAnswers(order, db)) && FreshPreview(cfg, draft, heard, preview)
    ensures WellConfirmed(cfg, preview, draft) && RowsCurrent(db, preview.rows) && preview.owner == owner
    ensures forall row <- preview.rows :: Unrelated(cfg, row.id)
    ensures ForcedKeys(cfg, draft, preview) == RequiredIn(cfg, draft, db)
  {
    hide WellFormed, Listable, Lists, SnapshotOf, HeardOf, DraftKnown, RowInOrder, RowCurrent, Unrelated;
    TableThere(cfg);
    PreviewParts(cfg, draft, heard, preview);
    PreviewKeys(cfg, draft, heard, order, db, owner, preview);
    forall row | row in preview.rows
      ensures RowCurrent(db, row) && Unrelated(cfg, row.id) && RowInOrder(row, RequiredIn(cfg, draft, db))
    {
      RowOfState(cfg, draft, heard, order, db, owner, row);
    }
    PreviewRows(cfg, draft, heard);
  }

  lemma PreviewKeys(cfg: Config, draft: Draft, heard: Readings, order: seq<ActionId>, db: Db, owner: string, preview: Preview)
    requires WellFormed(cfg) && preview.forceable
    requires HeardOf(cfg, draft, heard, db, owner, ExactAnswers(order, db)) && FreshPreview(cfg, draft, heard, preview)
    ensures ForcedKeys(cfg, draft, preview) == RequiredIn(cfg, draft, db) == RequiredFor(cfg, draft, heard.tuples)
    ensures preview.owner == owner && preview.rows != []
  {
    hide SnapshotOf, Images, HeldImages, LiveChords, RequiredKeys;
    PreviewParts(cfg, draft, heard, preview);
    ImagesHeld(cfg, db, heard.tuples);
    ImagesCount(cfg, heard.tuples);
    ChordsOfPrefix(cfg, draft, Images(cfg, heard.tuples), preview.images, |cfg.catalog|);
  }

  lemma ImagesCount(cfg: Config, ts: seq<Tuple>)
    ensures |Images(cfg, ts)| == |cfg.catalog|
  {
  }

  /** Only the catalog rows' images matter to the kept keys. */
  lemma {:induction false} ChordsOfPrefix(cfg: Config, draft: Draft, images: seq<seq<Key>>, longer: seq<seq<Key>>, n: nat)
    requires n <= |cfg.catalog| && images <= longer && n <= |images|
    ensures LiveChords(cfg, longer, draft, n) == LiveChords(cfg, images, draft, n)
  {
    if n > 0 { ChordsOfPrefix(cfg, draft, images, longer, n - 1); }
  }

  /** No more rows than can be listed, none under one joined identity with another. */
  lemma PreviewRows(cfg: Config, draft: Draft, heard: Readings)
    requires cfg.table != [] && SnapshotOf(cfg, draft, heard).Some?
    ensures var rows := SnapshotOf(cfg, draft, heard).value.rows;
            |rows| <= MAX_TUPLES && forall i, j :: 0 <= i < j < |rows| ==> JoinedId(rows[i].id) != JoinedId(rows[j].id)
  {
    var required, names := RequiredFor(cfg, draft, heard.tuples), NamesOf(cfg, heard.tuples);
    var found := ScanKeys(cfg, names, required, heard.replies).value.rows;
    ScanIsExact(cfg, names, required, heard.replies);
    SortRowsEmpty(found);
    RowsBounded(cfg, names, required, heard.replies);
    RowsNoDup(names, required, found);
    Sorting.SortPermutes(RowBefore, found);
    PermutedNoDup(found, SortRows(found));
    var rows := SortRows(found);
    forall i, j | 0 <= i < j < |rows|
      ensures JoinedId(rows[i].id) != JoinedId(rows[j].id)
    {
      assert rows[i] in found && rows[j] in found && rows[i] != rows[j];
      DistinctRows(names, required, found, rows[i], rows[j]);
    }
  }

  lemma {:induction false} RowsBounded(cfg: Config, names: Names, required: seq<Key>, replies: seq<Keyed>)
    requires cfg.table != [] && |replies| <= |required| && ScanKeys(cfg, names, required, replies).Some?
    ensures |ScanKeys(cfg, names, required, replies).value.rows| <= MAX_TUPLES
    decreases |replies|
  {
    if replies != [] {
      var n := |replies| - 1;
      RowsBounded(cfg, names, required, replies[..n]);
      RowsBoundedIn(cfg, names, required, required[n], replies[n].holders, ScanKeys(cfg, names, required, replies[..n]).value);
    }
  }

  lemma {:induction false} RowsBoundedIn(cfg: Config, names: Names, required: seq<Key>, key: Key, hs: seq<Holder>, s: Scan)
    requires cfg.table != [] && ScanHolders(cfg, names, required, key, hs, s).Some? && |s.rows| <= MAX_TUPLES
    ensures |ScanHolders(cfg, names, required, key, hs, s).value.rows| <= MAX_TUPLES
    decreases |hs|
  {
    if hs != [] { RowsBoundedIn(cfg, names, required, key, hs[..|hs| - 1], s); }
  }

  // ---- after the clears ------------------------------------------------------------------

  /** What a forceable preview says of the state it was read from. */
  ghost predicate PreviewsState(cfg: Config, draft: Draft, heard: Readings, order: seq<ActionId>, db: Db, owner: string, preview: Preview)
    requires cfg.table != []
  {
    && Listable(db) && Lists(order, db) && TellsApart(cfg, db) && DraftKnown(cfg, draft) && preview.forceable
    && HeardOf(cfg, draft, heard, db, owner, ExactAnswers(order, db)) && FreshPreview(cfg, draft, heard, preview)
  }

  /** A required key of a list is removed, not kept. */
  lemma RequiredGoes(active: seq<Key>, required: seq<Key>, k: Key)
    requires k in required
    ensures k !in Remainder(active, required) && (k in active ==> k in Conflicting(active, required))
  {
    FilterMembers((k: Key) => k in required, active);
    FilterMembers((k: Key) => k !in required, active);
    DedupMembers(Filter((k: Key) => k in required, active));
  }

  /** An action that holds a required key it may not hold has a row. */
  lemma HolderHasRow(cfg: Config, names: Names, required: seq<Key>, order: seq<ActionId>, db: Db, replies: seq<Keyed>, found: Scan,
                     id: ActionId, i: nat) returns (row: ClearRow)
    requires cfg.table != [] && replies == Answers(ExactAnswers(order, db), required) && i < |required|
    requires ScanExact(cfg, names, required, replies, found)
    requires id in order && id in db && required[i] in db[id].active && !Exempt(cfg, id, required[i])
    ensures row in found.rows && JoinedId(row.id) == JoinedId(id)
  {
    var h := Holder(id, db[id].active, db[id].defaults);
    HeldByExact(order, db, required[i]);
    assert Listed(cfg, required, replies, i, h);
    RequiredGoes(h.active, required, required[i]);
    assert required[i] in Conflicting(h.active, required);
    assert HasRow(found.rows, required, h);
    row :| row in found.rows && JoinedId(row.id) == JoinedId(id) && row.active == h.active;
  }

  /** Every such action has its own row. */
  lemma OpposedHasRow(cfg: Config, draft: Draft, heard: Readings, order: seq<ActionId>, db: Db, owner: string, preview: Preview,
                      id: ActionId, k: Key)
    requires WellFormed(cfg) && PreviewsState(cfg, draft, heard, order, db, owner, preview)
    requires k in RequiredIn(cfg, draft, db) && id in db && k in db[id].active && !Exempt(cfg, id, k)
    ensures exists row <- preview.rows :: row.id == id
  {
    hide WellFormed, Listable, TellsApart, DraftKnown, Enumerates, NamesOf, ScanKeys, RequiredFor, RequiredIn;
    TableThere(cfg);
    PreviewParts(cfg, draft, heard, preview);
    PreviewInOrder(cfg, draft, heard, order, db, owner, preview);
    PreviewKeys(cfg, draft, heard, order, db, owner, preview);
    var required, names := RequiredFor(cfg, draft, heard.tuples), NamesOf(cfg, heard.tuples);
    var found := ScanKeys(cfg, names, required, heard.replies).value;
    SortRowsEmpty(found.rows);
    ScanIsExact(cfg, names, required, heard.replies);
    var i :| 0 <= i < |required| && required[i] == k;
    var row := HolderHasRow(cfg, names, required, order, db, heard.replies, found, id, i);
    assert row in preview.rows;
    SameAction(cfg, db, row.id, id);
  }

  lemma SameAction(cfg: Config, db: Db, a: ActionId, b: ActionId)
    requires cfg.table != [] && TellsApart(cfg, db) && a in db && b in db && Unrelated(cfg, a) && Unrelated(cfg, b)
    requires JoinedId(a) == JoinedId(b)
    ensures a == b
  {
  }

  /** The clears leave the catalog rows and the lock alone. */
  lemma ClearsElsewhere(cfg: Config, draft: Draft, db: Db, rows: seq<ClearRow>)
    requires WellFormed(cfg) && RowsCurrent(db, rows) && forall row <- rows :: Unrelated(cfg, row.id)
    ensures forall id | InCatalog(cfg, id) || id == LockRow(cfg).foreign ::
              (id in Cleared(db, rows) <==> id in db) && (id in db ==> Cleared(db, rows)[id] == db[id])
    ensures HeldImages(cfg, Cleared(db, rows)) == HeldImages(cfg, db) && RequiredIn(cfg, draft, Cleared(db, rows)) == RequiredIn(cfg, draft, db)
    ensures RowsThere(cfg, draft, db) ==> RowsThere(cfg, draft, Cleared(db, rows))
  {
    ClearedAt(db, rows);
    forall id | InCatalog(cfg, id) || id == LockRow(cfg).foreign
      ensures (id in Cleared(db, rows) <==> id in db) && (id in db ==> Cleared(db, rows)[id] == db[id])
    {
      assert forall row <- rows :: row.id != id;
    }
    forall i | 0 <= i < |cfg.catalog|
      ensures HeldImages(cfg, Cleared(db, rows))[i] == HeldImages(cfg, db)[i]
    {
      assert InCatalog(cfg, cfg.catalog[i].id);
    }
    assert HeldImages(cfg, Cleared(db, rows)) == HeldImages(cfg, db);
    var p :| 0 <= p < |cfg.catalog| && cfg.catalog[p].id == LockRow(cfg).project;
    assert InCatalog(cfg, LockRow(cfg).project);
  }

  /** Once the holders of a forceable preview are cleared, an Apply can begin. */
  lemma ClearedApplicable(cfg: Config, draft: Draft, heard: Readings, order: seq<ActionId>, db: Db, owner: string, preview: Preview)
    requires WellFormed(cfg) && PreviewsState(cfg, draft, heard, order, db, owner, preview)
    ensures Applicable(cfg, draft, Cleared(db, preview.rows)) && Lists(order, Cleared(db, preview.rows))
  {
    hide WellFormed, Listable, TellsApart, DraftKnown, HeardOf, Enumerable, RowsThere, LockRelocatable, Lists, RequiredIn, FreshPreview, RowCurrent,
         Unrelated, Exempt, WellConfirmed, RowsCurrent, RowInOrder, PreviewsState;
    TableThere(cfg);
    StateParts(cfg, draft, heard, order, db, owner, preview);
    PreviewInOrder(cfg, draft, heard, order, db, owner, preview);
    ClearedListable(db, preview.rows);
    ClearedLists(order, db, preview.rows);
    ClearsElsewhere(cfg, draft, db, preview.rows);
    PreviewRowsThere(cfg, draft, heard, order, db, owner, preview);
    forall k, id | k in RequiredIn(cfg, draft, db) && id in Cleared(db, preview.rows) && k in Cleared(db, preview.rows)[id].active
      ensures Exempt(cfg, id, k)
    {
      ClearedHolder(cfg, draft, heard, order, db, owner, preview, id, k);
    }
  }

  lemma StateParts(cfg: Config, draft: Draft, heard: Readings, order: seq<ActionId>, db: Db, owner: string, preview: Preview)
    requires cfg.table != [] && PreviewsState(cfg, draft, heard, order, db, owner, preview)
    ensures Listable(db) && Lists(order, db) && TellsApart(cfg, db) && DraftKnown(cfg, draft) && preview.forceable
    ensures HeardOf(cfg, draft, heard, db, owner, ExactAnswers(order, db)) && FreshPreview(cfg, draft, heard, preview)
  {
  }

  lemma PreviewRowsThere(cfg: Config, draft: Draft, heard: Readings, order: seq<ActionId>, db: Db, owner: string, preview: Preview)
    requires WellFormed(cfg) && PreviewsState(cfg, draft, heard, order, db, owner, preview)
    ensures RowsThere(cfg, draft, db)
  {
    hide RowsThere, LockRelocatable, Enumerable;
    EnumerableExactly(cfg, draft, heard.tuples, order, db);
  }

  lemma ClearedHolder(cfg: Config, draft: Draft, heard: Readings, order: seq<ActionId>, db: Db, owner: string, preview: Preview, id: ActionId, k: Key)
    requires WellFormed(cfg) && PreviewsState(cfg, draft, heard, order, db, owner, preview) && k in RequiredIn(cfg, draft, db)
    requires id in Cleared(db, preview.rows) && k in Cleared(db, preview.rows)[id].active
    ensures Exempt(cfg, id, k)
  {
    hide WellFormed, RequiredIn, Exempt, PreviewsState, Cleared, Conflicting, Remainder;
    TableThere(cfg);
    if !Exempt(cfg, id, k) {
      var row := RowOfHolder(cfg, draft, heard, order, db, owner, preview, id, k);
      RequiredGoes(row.active, RequiredIn(cfg, draft, db), k);
    }
  }

  /** An action that still holds a required key it may not hold has a row that took it away. */
  lemma RowOfHolder(cfg: Config, draft: Draft, heard: Readings, order: seq<ActionId>, db: Db, owner: string, preview: Preview, id: ActionId, k: Key)
    returns (row: ClearRow)
    requires WellFormed(cfg) && PreviewsState(cfg, draft, heard, order, db, owner, preview) && k in RequiredIn(cfg, draft, db)
    requires id in Cleared(db, preview.rows) && k in Cleared(db, preview.rows)[id].active && !Exempt(cfg, id, k)
    ensures Cleared(db, preview.rows)[id].active == row.remainder == Remainder(row.active, RequiredIn(cfg, draft, db))
  {
    hide WellFormed, Listable, TellsApart, DraftKnown, HeardOf, Lists, RequiredIn, FreshPreview, RowCurrent, Unrelated, Exempt, PreviewsState,
         Conflicting, Remainder, ForcedKeys;
    TableThere(cfg);
    StateParts(cfg, draft, heard, order, db, owner, preview);
    PreviewInOrder(cfg, draft, heard, order, db, owner, preview);
    ClearedAt(db, preview.rows);
    if forall r <- preview.rows :: r.id != id {
      OpposedHasRow(cfg, draft, heard, order, db, owner, preview, id, k);
    }
    row :| row in preview.rows && row.id == id;
    assert RowInOrder(row, ForcedKeys(cfg, draft, preview));
  }

  /** Kept rows come through clears and plan as they were confirmed. */
  lemma KeptThroughForce(cfg: Config, draft: Draft, heard: Readings, order: seq<ActionId>, db: Db, owner: string, preview: Preview, final: seq<Tuple>)
    requires WellFormed(cfg) && PreviewsState(cfg, draft, heard, order, db, owner, preview)
    requires Enumerates(final, Run(Cleared(db, preview.rows), Plan(cfg, draft, Cleared(db, preview.rows))))
    ensures KeptAsConfirmed(cfg, draft, preview.images, final)
  {
    hide HeardOf, FreshPreview, TellsApart, RequiredIn, RowsCurrent, WellConfirmed, Unrelated, LockRelocatable, RequiredFor, SnapshotOf, ForcedKeys,
         Plan, Run, Images, ExactAnswers;
    var cleared := Cleared(db, preview.rows);
    PreviewInOrder(cfg, draft, heard, order, db, owner, preview);
    PreviewParts(cfg, draft, heard, preview);
    HeardImages(cfg, draft, heard, db, owner, order);
    ClearsElsewhere(cfg, draft, db, preview.rows);
    PreviewRowsThere(cfg, draft, heard, order, db, owner, preview);
    forall i | 0 <= i < |cfg.catalog| && i < |preview.images|
      ensures RowKept(draft, cfg.catalog[i].id, preview.images[i], Find(final, cfg.catalog[i].id))
    {
      var id := cfg.catalog[i].id;
      assert InCatalog(cfg, id);
      if id !in draft.disabled {
        PlanReachesRow(cfg, draft, cleared, i);
      }
    }
  }

  lemma HeardImages(cfg: Config, draft: Draft, heard: Readings, db: Db, owner: string, order: seq<ActionId>)
    requires cfg.table != [] && HeardOf(cfg, draft, heard, db, owner, ExactAnswers(order, db))
    ensures Images(cfg, heard.tuples) == HeldImages(cfg, db)
  {
    ImagesHeld(cfg, db, heard.tuples);
  }

  // ---- the outcome ---------------------------------------------------------------------

  /** What a Force that goes through leaves: the holders cleared, then the whole plan. */
  function Forced(cfg: Config, draft: Draft, db: Db, rows: seq<ClearRow>): Db
    requires cfg.table != []
  {
    Run(Cleared(db, rows), Plan(cfg, draft, Cleared(db, rows)))
  }

  /** How many writes that takes. */
  function ForcedCount(cfg: Config, draft: Draft, db: Db, rows: seq<ClearRow>): nat
    requires cfg.table != []
  {
    |rows| + |Plan(cfg, draft, Cleared(db, rows))|
  }

  /** A forceable preview of the state prepares the way: its holders can be cleared, an Apply can then begin, and
      the kept rows come through. */
  lemma StatePrepared(cfg: Config, draft: Draft, heard: Readings, order: seq<ActionId>, db: Db, owner: string, preview: Preview)
    requires WellFormed(cfg) && Listable(db) && Lists(order, db) && TellsApart(cfg, db) && DraftKnown(cfg, draft) && preview.forceable
    requires HeardOf(cfg, draft, heard, db, owner, ExactAnswers(order, db)) && FreshPreview(cfg, draft, heard, preview)
    ensures HoldersClearable(order, db, preview.rows) && preview.owner == owner
    ensures Applicable(cfg, draft, Cleared(db, preview.rows)) && Lists(order, Cleared(db, preview.rows))
    ensures Listable(Forced(cfg, draft, db, preview.rows)) && AlwaysKept(cfg, draft, preview.images, Forced(cfg, draft, db, preview.rows))
  {
    hide WellFormed, Listable, TellsApart, HeardOf, FreshPreview, Lists, RowsCurrent, ForcedKeys, RequiredIn, Cleared, Run, Plan, KeptAsConfirmed, Enumerates;
    TableThere(cfg);
    PreviewInOrder(cfg, draft, heard, order, db, owner, preview);
    ClearedApplicable(cfg, draft, heard, order, db, owner, preview);
    ClearedListable(db, preview.rows);
    var cleared := Cleared(db, preview.rows);
    PlanFits(cfg, draft, cleared);
    RunListable(cleared, Plan(cfg, draft, cleared));
    forall final | Enumerates(final, Forced(cfg, draft, db, preview.rows))
      ensures KeptAsConfirmed(cfg, draft, preview.images, final)
    {
      KeptThroughForce(cfg, draft, heard, order, db, owner, preview, final);
    }
  }

  lemma ConfirmedMeans(cfg: Config, confirmed: Preview, draft: Draft)
    requires cfg.table != [] && WellConfirmed(cfg, confirmed, draft)
    ensures Confirmable(cfg, confirmed, draft) && DraftKnown(cfg, draft) && confirmed.forceable
  {
  }

  /** The forceable preview of the state passes the checks on a confirmation. */
  lemma ActualWellConfirmed(cfg: Config, draft: Draft, order: seq<ActionId>, db: Db, owner: string, preview: Preview)
    requires WellFormed(cfg) && Listable(db) && Lists(order, db) && DraftKnown(cfg, draft)
    ensures preview.forceable && ActualPreview(cfg, draft, preview, db, owner, ExactAnswers(order, db)) ==> WellConfirmed(cfg, preview, draft)
  {
    hide WellFormed, Listable, Lists, DraftKnown, HeardOf, FreshPreview, WellConfirmed;
    TableThere(cfg);
    if preview.forceable && ActualPreview(cfg, draft, preview, db, owner, ExactAnswers(order, db)) {
      var heard :| HeardOf(cfg, draft, heard, db, owner, ExactAnswers(order, db)) && FreshPreview(cfg, draft, heard, preview);
      PreviewInOrder(cfg, draft, heard, order, db, owner, preview);
    }
  }

  /** A state whose actions can be told apart has one preview. */
  lemma OnlyPreview(cfg: Config, draft: Draft, heard: Readings, order: seq<ActionId>, db: Db, owner: string, now: Preview, preview: Preview)
    requires WellFormed(cfg) && Listable(db) && Lists(order, db) && TellsApart(cfg, db)
    requires HeardOf(cfg, draft, heard, db, owner, ExactAnswers(order, db))
    requires if SnapshotOf(cfg, draft, heard).Some? then FreshPreview(cfg, draft, heard, now) else now == NotForceable
    ensures ActualPreview(cfg, draft, preview, db, owner, ExactAnswers(order, db)) ==> now == preview
  {
    hide WellFormed, Listable, Lists, TellsApart, HeardOf, SnapshotOf, PreviewOf;
    TableThere(cfg);
    if ActualPreview(cfg, draft, preview, db, owner, ExactAnswers(order, db)) {
      var other :| HeardOf(cfg, draft, other, db, owner, ExactAnswers(order, db)) && FreshPreview(cfg, draft, other, preview);
      SameSnapshot(cfg, draft, heard, other, order, db, owner);
    }
  }

  lemma ActualNow(cfg: Config, draft: Draft, heard: Readings, db: Db, owner: string, keyed: Key -> Keyed, preview: Preview)
    requires cfg.table != [] && HeardOf(cfg, draft, heard, db, owner, keyed) && FreshPreview(cfg, draft, heard, preview)
    ensures ActualPreview(cfg, draft, preview, db, owner, keyed)
  {
  }

  // ---- which states have a forceable preview ----------------------------------------------

  /** An action that may not hold it holds a required key. */
  ghost predicate Opposing(cfg: Config, draft: Draft, db: Db, id: ActionId)
    requires cfg.table != []
  {
    id in db && exists k :: k in db[id].active && k in RequiredIn(cfg, draft, db) && Outsider(cfg, id, k)
  }

  /** The rows found so far show actions as they are, each once. */
  ghost predicate RowsOf(cfg: Config, names: Names, required: seq<Key>, db: Db, rows: seq<ClearRow>)
    requires cfg.table != []
  {
    && RowsDerived(names, required, rows)
    && forall row <- rows :: row.id in db && row.active == db[row.id].active && Unrelated(cfg, row.id)
  }

  function RowIds(rows: seq<ClearRow>): seq<ActionId> {
    seq(|rows|, i requires 0 <= i < |rows| => rows[i].id)
  }

  /** There is room for one more row. */
  lemma RowsFit(cfg: Config, names: Names, required: seq<Key>, order: seq<ActionId>, db: Db, rows: seq<ClearRow>, id: ActionId)
    requires cfg.table != [] && RowsOf(cfg, names, required, db, rows) && Lists(order, db) && Listable(db)
    requires id in db && forall row <- rows :: JoinedId(row.id) != JoinedId(id)
    ensures |rows| + 1 <= MAX_TUPLES
  {
    var ids := RowIds(rows) + [id];
    forall i, j | 0 <= i < j < |ids|
      ensures ids[i] != ids[j]
    {
      assert rows[i] in rows && (j < |rows| ==> rows[j] in rows);
    }
    forall x | x in ids
      ensures x in order
    {
      var i :| 0 <= i < |ids| && ids[i] == x;
      assert i < |rows| ==> rows[i] in rows;
    }
    Pigeonhole(ids, order);
    OrderCounts(order, db);
  }

  lemma HolderScans(cfg: Config, names: Names, required: seq<Key>, key: Key, order: seq<ActionId>, db: Db, h: Holder, s: Scan)
    requires cfg.table != [] && Lists(order, db) && Listable(db) && TellsApart(cfg, db)
    requires RowsOf(cfg, names, required, db, s.rows) && HolderValid(h) && h.id in db && h.active == db[h.id].active
    ensures ScanHolder(cfg, names, required, key, h, s).Some?
    ensures RowsOf(cfg, names, required, db, ScanHolder(cfg, names, required, key, h, s).value.rows)
  {
    if !Exempt(cfg, h.id, key) {
      match FindRow(s.rows, JoinedId(h.id)) {
        case Some(i) =>
          assert s.rows[i] in s.rows;
        case None =>
          RowsFit(cfg, names, required, order, db, s.rows, h.id);
      }
      HolderExact(cfg, names, required, key, h, s);
    }
  }

  lemma {:induction false} HoldersScan(cfg: Config, names: Names, required: seq<Key>, key: Key, order: seq<ActionId>, db: Db, hs: seq<Holder>, s: Scan)
    requires cfg.table != [] && Lists(order, db) && Listable(db) && TellsApart(cfg, db)
    requires RowsOf(cfg, names, required, db, s.rows)
    requires forall h <- hs :: HolderValid(h) && h.id in db && h.active == db[h.id].active
    ensures ScanHolders(cfg, names, required, key, hs, s).Some?
    ensures RowsOf(cfg, names, required, db, ScanHolders(cfg, names, required, key, hs, s).value.rows)
    decreases |hs|
  {
    hide RowsOf, TellsApart, Listable, Lists, HolderValid;
    if hs != [] {
      var front, last := hs[..|hs| - 1], hs[|hs| - 1];
      assert last in hs && forall h <- front :: h in hs;
      HoldersScan(cfg, names, required, key, order, db, front, s);
      HolderScans(cfg, names, required, key, order, db, last, ScanHolders(cfg, names, required, key, front, s).value);
    }
  }

  /** The scan of exact answers never fails where actions have distinct joined identities. */
  lemma {:induction false} ScanSucceeds(cfg: Config, names: Names, required: seq<Key>, order: seq<ActionId>, db: Db, replies: seq<Keyed>)
    requires cfg.table != [] && Lists(order, db) && Listable(db) && TellsApart(cfg, db) && |replies| <= |required|
    requires forall i | 0 <= i < |replies| :: replies[i] == ExactAnswers(order, db)(required[i]) && KeyInRange(required[i])
    ensures ScanKeys(cfg, names, required, replies).Some?
    ensures RowsOf(cfg, names, required, db, ScanKeys(cfg, names, required, replies).value.rows)
    decreases |replies|
  {
    hide RowsOf, TellsApart, Listable, Lists;
    if replies == [] {
      NoRowsYet(cfg, names, required, db);
    } else {
      var n := |replies| - 1;
      ScanSucceeds(cfg, names, required, order, db, replies[..n]);
      HeldAsIs(order, db, required[n]);
      HoldersScan(cfg, names, required, required[n], order, db, replies[n].holders, ScanKeys(cfg, names, required, replies[..n]).value);
    }
  }

  lemma NoRowsYet(cfg: Config, names: Names, required: seq<Key>, db: Db)
    requires cfg.table != []
    ensures RowsOf(cfg, names, required, db, NothingFound.rows)
  {
  }

  lemma HeldAsIs(order: seq<ActionId>, db: Db, key: Key)
    requires Lists(order, db) && Listable(db)
    ensures forall h <- HeldBy(order, db, key) :: HolderValid(h) && h.id in db && h.active == db[h.id].active && key in h.active
    ensures |HeldBy(order, db, key)| <= MAX_TUPLES
  {
    HeldByExact(order, db, key);
    HeldReadable(order, db, key);
  }

  /** A readable state has a snapshot exactly when its rows are there; the preview is then forceable exactly
      when some action holds a required key that it may not hold, and its rows are those actions. */
  lemma ForceableIff(cfg: Config, draft: Draft, heard: Readings, order: seq<ActionId>, db: Db, owner: string)
    requires WellFormed(cfg) && Listable(db) && Lists(order, db) && TellsApart(cfg, db) && DraftKnown(cfg, draft)
    requires HeardOf(cfg, draft, heard, db, owner, ExactAnswers(order, db))
    ensures SnapshotOf(cfg, draft, heard).Some? <==> RowsThere(cfg, draft, db)
    ensures SnapshotOf(cfg, draft, heard).Some? ==>
              var preview := PreviewOf(draft, SnapshotOf(cfg, draft, heard).value);
              && (preview.forceable <==> exists id :: Opposing(cfg, draft, db, id))
              && (preview.forceable ==> forall id :: (exists row <- preview.rows :: row.id == id) <==> Opposing(cfg, draft, db, id))
  {
    hide WellFormed, Listable, Lists, TellsApart, DraftKnown, Enumerable, RowsThere, LockRelocatable, ScanKeys, NamesOf, Enumerates, RequiredKeys,
         KeepKeys, Images, HeldImages, SomeToClear, SomeWithout, RowsAreHolders, Opposing, RowsOf, SortRows;
    TableThere(cfg);
    var required, names := RequiredFor(cfg, draft, heard.tuples), NamesOf(cfg, heard.tuples);
    ImagesHeld(cfg, db, heard.tuples);
    assert required == RequiredIn(cfg, draft, db);
    RequiredInRange(cfg, draft, db);
    ScanSucceeds(cfg, names, required, order, db, heard.replies);
    EnumerableExactly(cfg, draft, heard.tuples, order, db);
    if SnapshotOf(cfg, draft, heard).Some? {
      ForceableExactly(cfg, draft, heard);
      OpposingListed(cfg, draft, order, db, heard.replies);
      OpposingRows(cfg, draft, order, db, heard.replies, PreviewOf(draft, SnapshotOf(cfg, draft, heard).value).rows);
    }
  }

  lemma ListedOpposes(cfg: Config, draft: Draft, order: seq<ActionId>, db: Db, replies: seq<Keyed>, i: nat, h: Holder)
    requires cfg.table != [] && Lists(order, db) && replies == Answers(ExactAnswers(order, db), RequiredIn(cfg, draft, db))
    requires ListsOutsider(cfg, RequiredIn(cfg, draft, db), replies, i, h)
    ensures HoldsRequired(h, RequiredIn(cfg, draft, db)) && Opposing(cfg, draft, db, h.id) && h.id in db && Unrelated(cfg, h.id)
  {
    hide RequiredIn;
    var required := RequiredIn(cfg, draft, db);
    HeldByExact(order, db, required[i]);
    assert required[i] in required;
    OutsiderIsNotExempt(cfg, h.id, required[i]);
  }

  lemma OpposingIsListed(cfg: Config, draft: Draft, order: seq<ActionId>, db: Db, replies: seq<Keyed>, id: ActionId) returns (i: nat, h: Holder)
    requires cfg.table != [] && Lists(order, db) && replies == Answers(ExactAnswers(order, db), RequiredIn(cfg, draft, db))
    requires Opposing(cfg, draft, db, id)
    ensures ListsOutsider(cfg, RequiredIn(cfg, draft, db), replies, i, h) && HoldsRequired(h, RequiredIn(cfg, draft, db)) && h.id == id
  {
    hide RequiredIn, Outsider;
    var required := RequiredIn(cfg, draft, db);
    var k :| k in db[id].active && k in required && Outsider(cfg, id, k);
    i :| i < |required| && required[i] == k;
    HeldByExact(order, db, k);
    h := Holder(id, db[id].active, db[id].defaults);
  }

  /** Exact answers list an outsider exactly when it holds a required key that it may not. */
  lemma OpposingListed(cfg: Config, draft: Draft, order: seq<ActionId>, db: Db, replies: seq<Keyed>)
    requires cfg.table != [] && Lists(order, db) && replies == Answers(ExactAnswers(order, db), RequiredIn(cfg, draft, db))
    ensures SomeToClear(cfg, RequiredIn(cfg, draft, db), replies) <==> exists id :: Opposing(cfg, draft, db, id)
    ensures !SomeWithout(cfg, RequiredIn(cfg, draft, db), replies)
  {
    hide RequiredIn, ListsOutsider, HoldsRequired, Opposing, Lists;
    forall i: nat, h | ListsOutsider(cfg, RequiredIn(cfg, draft, db), replies, i, h)
      ensures HoldsRequired(h, RequiredIn(cfg, draft, db)) && Opposing(cfg, draft, db, h.id)
    {
      ListedOpposes(cfg, draft, order, db, replies, i, h);
    }
    if id :| Opposing(cfg, draft, db, id) {
      var i, h := OpposingIsListed(cfg, draft, order, db, replies, id);
    }
  }

  lemma RowOpposes(cfg: Config, draft: Draft, order: seq<ActionId>, db: Db, replies: seq<Keyed>, rows: seq<ClearRow>, row: ClearRow)
    requires cfg.table != [] && Lists(order, db) && replies == Answers(ExactAnswers(order, db), RequiredIn(cfg, draft, db))
    requires RowsAreHolders(cfg, RequiredIn(cfg, draft, db), replies, rows) && row in rows
    ensures Opposing(cfg, draft, db, row.id) && row.id in db && Unrelated(cfg, row.id)
  {
    hide RequiredIn, ListsOutsider, HoldsRequired, Lists, JoinedId, Opposing, Unrelated, ExactAnswers;
    var i: nat, h :| ListsOutsider(cfg, RequiredIn(cfg, draft, db), replies, i, h) && HoldsRequired(h, RequiredIn(cfg, draft, db)) && h.id == row.id && h.active == row.active;
    ListedOpposes(cfg, draft, order, db, replies, i, h);
  }

  lemma OpposingHasRow(cfg: Config, draft: Draft, order: seq<ActionId>, db: Db, replies: seq<Keyed>, rows: seq<ClearRow>, id: ActionId)
    returns (row: ClearRow)
    requires cfg.table != [] && Lists(order, db) && TellsApart(cfg, db) && replies == Answers(ExactAnswers(order, db), RequiredIn(cfg, draft, db))
    requires RowsAreHolders(cfg, RequiredIn(cfg, draft, db), replies, rows) && Opposing(cfg, draft, db, id)
    ensures row in rows && row.id == id
  {
    hide RequiredIn, ListsOutsider, HoldsRequired, Lists, JoinedId, Opposing, Unrelated, ExactAnswers;
    var i, h := OpposingIsListed(cfg, draft, order, db, replies, id);
    ListedOpposes(cfg, draft, order, db, replies, i, h);
    row :| row in rows && JoinedId(row.id) == JoinedId(h.id) && row.active == h.active;
    RowOpposes(cfg, draft, order, db, replies, rows, row);
  }

  /** Where actions have distinct joined identities the rows are exactly those actions. */
  lemma OpposingRows(cfg: Config, draft: Draft, order: seq<ActionId>, db: Db, replies: seq<Keyed>, rows: seq<ClearRow>)
    requires cfg.table != [] && Lists(order, db) && TellsApart(cfg, db) && replies == Answers(ExactAnswers(order, db), RequiredIn(cfg, draft, db))
    ensures RowsAreHolders(cfg, RequiredIn(cfg, draft, db), replies, rows) ==>
              forall id :: (exists row <- rows :: row.id == id) <==> Opposing(cfg, draft, db, id)
  {
    hide RequiredIn, RowsAreHolders, Lists, TellsApart, Opposing, Unrelated, ExactAnswers;
    if RowsAreHolders(cfg, RequiredIn(cfg, draft, db), replies, rows) {
      forall row | row in rows
        ensures Opposing(cfg, draft, db, row.id)
      {
        RowOpposes(cfg, draft, order, db, replies, rows, row);
      }
      forall id | Opposing(cfg, draft, db, id)
        ensures exists row <- rows :: row.id == id
      {
        var row := OpposingHasRow(cfg, draft, order, db, replies, rows, id);
      }
    }
  }
}
