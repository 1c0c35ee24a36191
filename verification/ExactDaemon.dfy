// The preflight on a daemon whose keyed answers list exactly the actions that
// hold a key: what it asks of the state, that an Apply cut off anywhere can be
// begun again, and that its writes may outnumber the client's.

module ExactDaemon {
  import opened Prelude
  import opened Shortcuts
  import opened ShortcutStore
  import opened HolderScan
  import opened Preflight
  import opened ApplyPlan
  import opened ReconcilerFacts

  /** Every action the daemon knows, once. */
  ghost predicate Lists(order: seq<ActionId>, db: Db) {
    NoDup(order) && forall id :: id in order <==> id in db
  }

  /** The keys a draft requires of a state. */
  function RequiredIn(cfg: Config, draft: Draft, db: Db): seq<Key>
    requires cfg.table != []
  {
    RequiredKeys(cfg, draft, KeepKeys(cfg, HeldImages(cfg, db), draft))
  }

  /** The lock pair is there, and the lock has something to relocate or to keep. */
  ghost predicate LockThere(cfg: Config, db: Db)
    requires cfg.table != []
  {
    LockRow(cfg).project in db && LockRow(cfg).foreign in db && LockRelocatable(LockRow(cfg), db[LockRow(cfg).foreign].active)
  }

  /** Rows are there unless disabled, and so is the lock pair while it is in scope. */
  ghost predicate RowsThere(cfg: Config, draft: Draft, db: Db)
    requires cfg.table != []
  {
    && (forall id | InCatalog(cfg, id) :: id in db || id in draft.disabled)
    && (FocusAuthentic(cfg, draft) ==> LockThere(cfg, db))
  }

  /** Only actions that may hold it hold a required key. */
  ghost predicate Unopposed(cfg: Config, draft: Draft, db: Db)
    requires cfg.table != []
  {
    forall k <- RequiredIn(cfg, draft, db) :: KeyFree(cfg, db, k)
  }

  ghost predicate KeyFree(cfg: Config, db: Db, key: Key)
    requires cfg.table != []
  {
    forall id <- db | key in db[id].active :: Exempt(cfg, id, key)
  }

  /** An Apply of this draft can begin in this state. */
  ghost predicate Applicable(cfg: Config, draft: Draft, db: Db)
    requires cfg.table != []
  {
    DraftKnown(cfg, draft) && Listable(db) && RowsThere(cfg, draft, db) && Unopposed(cfg, draft, db)
  }

  // ---- enumerations and keyed answers of one state --------------------------------

  lemma {:induction false} FindPresent(ts: seq<Tuple>, t: Tuple)
    requires t in ts
    ensures !Find(ts, t.id).Missing? && (Find(ts, t.id).One? ==> Find(ts, t.id).tuple == t)
    decreases |ts|
  {
    var front, last := ts[..|ts| - 1], ts[|ts| - 1];
    if t in front {
      FindPresent(front, t);
    } else {
      assert t == last;
    }
  }

  lemma {:induction false} FindOnce(ts: seq<Tuple>, i: nat, j: nat)
    requires i < j < |ts|
    ensures ts[i].id == ts[j].id ==> Find(ts, ts[i].id).Many?
    decreases |ts|
  {
    var front := ts[..|ts| - 1];
    if j < |front| {
      FindOnce(front, i, j);
    } else {
      assert front[i] in front;
      FindPresent(front, ts[i]);
    }
  }

  function IdsOf(ts: seq<Tuple>): seq<ActionId> {
    seq(|ts|, i requires 0 <= i < |ts| => ts[i].id)
  }

  /** An enumeration lists each action once, with its list. */
  lemma EnumerationMatches(ts: seq<Tuple>, order: seq<ActionId>, db: Db)
    requires Enumerates(ts, db) && Lists(order, db)
    ensures forall t <- ts :: t.id in db && t.active == db[t.id].active
    ensures forall id <- db :: Find(ts, id).One? && Find(ts, id).tuple in ts
    ensures |ts| == |order| == |db|
  {
    forall t | t in ts
      ensures t.id in db && t.active == db[t.id].active
    {
      FindPresent(ts, t);
      assert Find(ts, t.id) == if t.id in db then One(Tuple(t.id, db[t.id].names, db[t.id].active)) else Missing;
    }
    forall id | id in db
      ensures Find(ts, id).One? && Find(ts, id).tuple in ts
    {
      assert Find(ts, id) == if id in db then One(Tuple(id, db[id].names, db[id].active)) else Missing;
    }
    SameSize(ts, order, db);
  }

  lemma SameSize(ts: seq<Tuple>, order: seq<ActionId>, db: Db)
    requires Enumerates(ts, db) && Lists(order, db)
    requires forall t <- ts :: t.id in db
    requires forall id <- db :: Find(ts, id).One? && Find(ts, id).tuple in ts
    ensures |ts| == |order| == |db|
  {
    hide Find, Enumerates;
    var ids := IdsOf(ts);
    IdsDistinct(ts, db);
    forall id | id in order
      ensures id in ids
    {
      var t := Find(ts, id).tuple;
      var i :| 0 <= i < |ts| && ts[i] == t;
      assert ids[i] == id;
    }
    forall id | id in ids
      ensures id in order
    {
      var i :| 0 <= i < |ids| && ids[i] == id;
      assert ts[i] in ts;
    }
    Pigeonhole(ids, order);
    Pigeonhole(order, ids);
    OrderCounts(order, db);
  }

  lemma IdsDistinct(ts: seq<Tuple>, db: Db)
    requires Enumerates(ts, db)
    ensures NoDup(IdsOf(ts))
  {
    forall i, j | 0 <= i < j < |ts|
      ensures ts[i].id != ts[j].id
    {
      FindOnce(ts, i, j);
      assert !Find(ts, ts[i].id).Many?;
    }
  }

  lemma OrderCounts(order: seq<ActionId>, db: Db)
    requires Lists(order, db)
    ensures |order| == |db|
  {
    NoDupCount(order);
    assert (set id | id in order) == db.Keys;
  }

  lemma {:induction false} NoDupCount<T>(s: seq<T>)
    requires forall i, j :: 0 <= i < j < |s| ==> s[i] != s[j]
    ensures |set x | x in s| == |s|
  {
    if s != [] {
      NoDupCount(s[1..]);
      assert (set x | x in s) == {s[0]} + (set x | x in s[1..]);
    }
  }

  lemma {:induction false} HeldByExact(order: seq<ActionId>, db: Db, key: Key)
    ensures forall h :: h in HeldBy(order, db, key) <==>
              h.id in order && h.id in db && key in db[h.id].active && h == Holder(h.id, db[h.id].active, db[h.id].defaults)
    ensures |HeldBy(order, db, key)| <= |order|
  {
    if order != [] {
      HeldByExact(order[1..], db, key);
      assert order == [order[0]] + order[1..];
    }
  }

  // ---- a scan that finds nothing ---------------------------------------------------

  /** Every holder listed is valid and may hold the key, and the availability agrees. */
  ghost predicate NothingListed(cfg: Config, key: Key, reply: Keyed)
    requires cfg.table != []
  {
    && KeyInRange(key) && |reply.holders| <= MAX_TUPLES && (reply.holders == []) == reply.available
    && forall h <- reply.holders :: HolderValid(h) && Exempt(cfg, h.id, key)
  }

  lemma {:induction false} HoldersFindNothing(cfg: Config, names: Names, required: seq<Key>, key: Key, hs: seq<Holder>, s: Scan)
    requires cfg.table != []
    ensures ScanHolders(cfg, names, required, key, hs, s).Some? ==>
              s.rows <= ScanHolders(cfg, names, required, key, hs, s).value.rows &&
              s.blocked <= ScanHolders(cfg, names, required, key, hs, s).value.blocked
    ensures s == NothingFound ==>
              (ScanHolders(cfg, names, required, key, hs, s) == Some(NothingFound) <==> forall h <- hs :: HolderValid(h) && Exempt(cfg, h.id, key))
    decreases |hs|
  {
    if hs != [] {
      var front, last := hs[..|hs| - 1], hs[|hs| - 1];
      HoldersFindNothing(cfg, names, required, key, front, s);
      assert hs == front + [last];
      if s == NothingFound {
        assert FindRow([], JoinedId(last.id)) == None;
      }
    }
  }

  lemma {:induction false} ScanFindsNothing(cfg: Config, names: Names, required: seq<Key>, replies: seq<Keyed>)
    requires cfg.table != [] && |replies| <= |required|
    ensures ScanKeys(cfg, names, required, replies) == Some(NothingFound) <==>
              forall i | 0 <= i < |replies| :: NothingListed(cfg, required[i], replies[i])
    decreases |replies|
  {
    if replies != [] {
      var n := |replies| - 1;
      ScanFindsNothing(cfg, names, required, replies[..n]);
      KeyFindsNothing(cfg, names, required, required[n], replies[n], ScanKeys(cfg, names, required, replies[..n]));
    }
  }

  lemma KeyFindsNothing(cfg: Config, names: Names, required: seq<Key>, key: Key, reply: Keyed, before: Option<Scan>)
    requires cfg.table != []
    ensures before.Some? && ScanKey(cfg, names, required, key, reply, before.value) == Some(NothingFound) <==>
              before == Some(NothingFound) && NothingListed(cfg, key, reply)
  {
    if before.Some? {
      HoldersFindNothing(cfg, names, required, key, reply.holders, before.value);
    }
  }

  // ---- what the preflight asks of the state ------------------------------------------

  lemma EnumerableExactly(cfg: Config, draft: Draft, ts: seq<Tuple>, order: seq<ActionId>, db: Db)
    requires WellFormed(cfg) && Enumerates(ts, db) && Lists(order, db) && Listable(db)
    ensures Enumerable(cfg, draft, ts) && (FocusAuthentic(cfg, draft) ==> LockRelocatable(LockRow(cfg), Find(ts, LockRow(cfg).foreign).tuple.active)) <==>
              DraftKnown(cfg, draft) && RowsThere(cfg, draft, db)
  {
    EnumerationMatches(ts, order, db);
    CatalogExactly(cfg, draft, ts, db);
    LockExactly(cfg, ts, db);
    assert UnrelatedBounded(cfg, ts) by {
      assert forall t <- ts :: EntryValid(t.id, db[t.id]);
    }
  }

  lemma CatalogExactly(cfg: Config, draft: Draft, ts: seq<Tuple>, db: Db)
    requires cfg.table != [] && Enumerates(ts, db) && Listable(db)
    ensures CatalogReadable(cfg, draft, ts) <==> forall id | InCatalog(cfg, id) :: id in db || id in draft.disabled
  {
    forall i | 0 <= i < |cfg.catalog|
      ensures InCatalog(cfg, cfg.catalog[i].id)
      ensures var id := cfg.catalog[i].id;
              RowReadable(draft, id, Find(ts, id)) <==> id in db || id in draft.disabled
    {
      var id := cfg.catalog[i].id;
      assert Find(ts, id) == if id in db then One(Tuple(id, db[id].names, db[id].active)) else Missing;
      assert id in db ==> EntryValid(id, db[id]);
    }
  }

  lemma LockExactly(cfg: Config, ts: seq<Tuple>, db: Db)
    requires cfg.table != [] && Enumerates(ts, db) && Listable(db)
    ensures LockResolved(cfg, ts) && LockRelocatable(LockRow(cfg), Find(ts, LockRow(cfg).foreign).tuple.active) <==> LockThere(cfg, db)
  {
    var row := LockRow(cfg);
    assert Find(ts, row.project) == if row.project in db then One(Tuple(row.project, db[row.project].names, db[row.project].active)) else Missing;
    assert Find(ts, row.foreign) == if row.foreign in db then One(Tuple(row.foreign, db[row.foreign].names, db[row.foreign].active)) else Missing;
    assert forall id <- db :: EntryValid(id, db[id]);
  }

  lemma KeyExactly(cfg: Config, order: seq<ActionId>, db: Db, key: Key)
    requires cfg.table != [] && Lists(order, db) && Listable(db) && KeyInRange(key)
    ensures NothingListed(cfg, key, ExactAnswers(order, db)(key)) <==> KeyFree(cfg, db, key)
  {
    HeldByExact(order, db, key);
    OrderCounts(order, db);
    var held := HeldBy(order, db, key);
    assert forall id <- db :: EntryValid(id, db[id]);
    if NothingListed(cfg, key, ExactAnswers(order, db)(key)) {
      forall id | id in db && key in db[id].active
        ensures Exempt(cfg, id, key)
      {
        assert Holder(id, db[id].active, db[id].defaults) in held;
      }
    }
  }

  // ---- the required keys are ones that can be asked about -------------------------------

  lemma {:induction false} CanonicalsInRange(catalog: seq<CatalogEntry>, draft: Draft)
    requires forall entry <- catalog :: 0 <= entry.canonical <= MAX_KEY_VALUE
    ensures forall k <- Canonicals(catalog, draft) :: KeyInRange(k)
    decreases |catalog|
  {
    if catalog != [] {
      var front, last := catalog[..|catalog| - 1], catalog[|catalog| - 1];
      assert catalog == front + [last];
      CanonicalsInRange(front, draft);
    }
  }

  lemma {:induction false} ChordsValid(cfg: Config, images: seq<seq<Key>>, draft: Draft, n: nat)
    requires n <= |cfg.catalog| && n <= |images| && forall i | 0 <= i < |images| :: KeysValid(images[i])
    ensures forall k <- LiveChords(cfg, images, draft, n) :: 0 <= k <= MAX_KEY_VALUE
  {
    if n > 0 {
      ChordsValid(cfg, images, draft, n - 1);
      assert KeysValid(images[n - 1]);
    }
  }

  lemma RequiredInRange(cfg: Config, draft: Draft, db: Db)
    requires WellFormed(cfg) && Listable(db)
    ensures forall k <- RequiredIn(cfg, draft, db) :: KeyInRange(k)
  {
    hide HeldImages, Canonicals, LiveChords, RequiredKeys, Listable;
    var keep := KeepKeys(cfg, HeldImages(cfg, db), draft);
    ImagesValid(cfg, db);
    var chords := LiveChords(cfg, HeldImages(cfg, db), draft, |cfg.catalog|);
    ChordsValid(cfg, HeldImages(cfg, db), draft, |cfg.catalog|);
    CanonicalsInRange(cfg.catalog, draft);
    assert keep <= chords;
    assert forall k <- keep :: k in chords;
    forall k | k in RequiredKeys(cfg, draft, keep)
      ensures KeyInRange(k)
    {
      RequiredFrom(cfg, draft, keep, k);
    }
  }

  /** Where a required key comes from. */
  lemma RequiredFrom(cfg: Config, draft: Draft, keep: seq<Key>, k: Key)
    requires cfg.table != [] && k in RequiredKeys(cfg, draft, keep)
    ensures k in Canonicals(cfg.catalog, draft) || (k in keep && k != 0) || k in LockRow(cfg).target + LockRow(cfg).foreignPre
  {
    FilterMembers((k: Key) => k != 0, keep);
    DedupMembers((if draft.authentic then Canonicals(cfg.catalog, draft) else Filter((k: Key) => k != 0, keep)) +
                 (if FocusAuthentic(cfg, draft) then LockRow(cfg).target + LockRow(cfg).foreignPre else []));
  }

  lemma ImagesValid(cfg: Config, db: Db)
    requires Listable(db)
    ensures |HeldImages(cfg, db)| == |cfg.catalog| && forall i | 0 <= i < |cfg.catalog| :: KeysValid(HeldImages(cfg, db)[i])
  {
    forall i | 0 <= i < |cfg.catalog|
      ensures KeysValid(HeldImages(cfg, db)[i])
    {
      assert cfg.catalog[i].id in db ==> EntryValid(cfg.catalog[i].id, db[cfg.catalog[i].id]);
    }
  }

  /** The scan of exact answers finds nothing exactly when no required key is held by an action that may not. */
  lemma ScanIffUnopposed(cfg: Config, draft: Draft, heard: Readings, order: seq<ActionId>, db: Db, owner: string)
    requires WellFormed(cfg) && Lists(order, db) && Listable(db)
    requires HeardOf(cfg, draft, heard, db, owner, ExactAnswers(order, db))
    ensures |heard.replies| == |RequiredFor(cfg, draft, heard.tuples)|
    ensures ScanKeys(cfg, NamesOf(cfg, heard.tuples), RequiredFor(cfg, draft, heard.tuples), heard.replies) == Some(NothingFound) <==>
              Unopposed(cfg, draft, db)
  {
    hide Enumerates, ExactAnswers, RequiredKeys, KeepKeys, Images, HeldImages, Listable, ScanKeys, NamesOf, KeyFree, NothingListed, Lists;
    var required := RequiredFor(cfg, draft, heard.tuples);
    ImagesHeld(cfg, db, heard.tuples);
    ScanFindsNothing(cfg, NamesOf(cfg, heard.tuples), required, heard.replies);
    RequiredInRange(cfg, draft, db);
    forall i | 0 <= i < |required|
      ensures NothingListed(cfg, required[i], heard.replies[i]) <==> KeyFree(cfg, db, required[i])
    {
      assert required[i] in required;
      KeyExactly(cfg, order, db, required[i]);
    }
    assert required == RequiredIn(cfg, draft, db);
  }

  /** The preflight of an undisturbed state with exact keyed answers is clean exactly when its rows
      are there and only actions that may hold it hold a required key. */
  lemma CleanIffApplicable(cfg: Config, draft: Draft, heard: Readings, order: seq<ActionId>, db: Db, owner: string)
    requires WellFormed(cfg) && Lists(order, db) && Listable(db)
    requires HeardOf(cfg, draft, heard, db, owner, ExactAnswers(order, db))
    ensures CleanPreflight(cfg, draft, heard) <==> Applicable(cfg, draft, db)
  {
    hide Enumerable, RowsThere, ExactAnswers, RequiredFor, LockRelocatable, Enumerates, Listable, ScanKeys, CleanPreflight, NamesOf, Unopposed, Lists;
    ScanIffUnopposed(cfg, draft, heard, order, db, owner);
    CleanMeans(cfg, draft, heard);
    EnumerableExactly(cfg, draft, heard.tuples, order, db);
  }

  lemma CleanMeans(cfg: Config, draft: Draft, heard: Readings)
    requires WellFormed(cfg) && |heard.replies| == |RequiredFor(cfg, draft, heard.tuples)|
    ensures CleanPreflight(cfg, draft, heard) <==>
              && Enumerable(cfg, draft, heard.tuples)
              && (FocusAuthentic(cfg, draft) ==> LockRelocatable(LockRow(cfg), Find(heard.tuples, LockRow(cfg).foreign).tuple.active))
              && ScanKeys(cfg, NamesOf(cfg, heard.tuples), RequiredFor(cfg, draft, heard.tuples), heard.replies) == Some(NothingFound)
  {
    var scan := ScanKeys(cfg, NamesOf(cfg, heard.tuples), RequiredFor(cfg, draft, heard.tuples), heard.replies);
    if scan.Some? {
      SortRowsEmpty(scan.value.rows);
    }
  }

  // ---- an Apply cut off anywhere -----------------------------------------------------

  lemma {:induction false} NeedsFrom(slots: seq<Slot>, db: Db, e: Event) returns (s: Slot)
    requires e in Needs(slots, db)
    ensures s in slots && s.id == e.id && s.id in db && e.keys == Goal(s, db[s.id].active)
  {
    if e in Need(slots[0], db) {
      s := slots[0];
    } else {
      s := NeedsFrom(slots[1..], db, e);
    }
  }

  /** Written actions hold what was written, everything else is as it was. */
  lemma {:induction false} RunAt(db: Db, done: seq<Event>)
    requires DistinctWrites(done)
    ensures Run(db, done).Keys == db.Keys
    ensures forall id <- db :: Run(db, done)[id].defaults == db[id].defaults
    ensures forall e <- done | e.id in db :: Run(db, done)[e.id].active == e.keys
    ensures forall id <- db | (forall e <- done :: e.id != id) :: Run(db, done)[id] == db[id]
    decreases |done|
  {
    if done != [] {
      var front, last := done[..|done| - 1], done[|done| - 1];
      RunAt(db, front);
      assert done == front + [last];
    }
  }

  /** A state reached by a prefix of the plan, action by action. */
  ghost predicate CutAt(cfg: Config, draft: Draft, db: Db, done: seq<Event>, cut: Db)
    requires cfg.table != []
  {
    && cut.Keys == db.Keys
    && (forall id <- db :: cut[id].defaults == db[id].defaults)
    && (forall e <- done :: PlannedWrite(cfg, draft, db, e) && cut[e.id].active == e.keys)
    && (forall id <- db | (forall e <- done :: e.id != id) :: cut[id] == db[id])
  }

  /** A write of the plan: to a row, or to the lock, which is relocated. */
  ghost predicate PlannedWrite(cfg: Config, draft: Draft, db: Db, e: Event)
    requires cfg.table != []
  {
    && e.id in db
    && (|| (InCatalog(cfg, e.id) && e.id != LockRow(cfg).foreign && (draft.authentic || e.id in draft.disabled))
        || (e.id == LockRow(cfg).foreign && FocusAuthentic(cfg, draft) && e.keys == LockPost(LockRow(cfg), db[e.id].active)))
  }

  lemma PlanCut(cfg: Config, draft: Draft, db: Db, k: nat)
    requires WellFormed(cfg) && k <= |Plan(cfg, draft, db)|
    ensures CutAt(cfg, draft, db, Plan(cfg, draft, db)[..k], Run(db, Plan(cfg, draft, db)[..k]))
  {
    var plan := Plan(cfg, draft, db);
    SlotsDistinct(cfg, draft);
    NeedsDistinct(Slots(cfg, draft), db);
    RunAt(db, plan[..k]);
    forall e | e in plan[..k]
      ensures PlannedWrite(cfg, draft, db, e)
    {
      assert e in plan;
      PlanWrites(cfg, draft, db, e);
    }
  }

  lemma PlanWrites(cfg: Config, draft: Draft, db: Db, e: Event)
    requires WellFormed(cfg) && e in Plan(cfg, draft, db)
    ensures PlannedWrite(cfg, draft, db, e)
  {
    var s := NeedsFrom(Slots(cfg, draft), db, e);
    if s in RowSlots(cfg, draft) {
      RowSlotIds(cfg, draft, s);
      AssignSlotIds(cfg, draft, cfg.catalog);
      ClearSlotIds(draft, cfg.catalog);
    } else if s.Own? {
      assert InCatalog(cfg, LockRow(cfg).project);
    }
  }

  /** What the draft requires does not change along the way. */
  lemma RequiredStays(cfg: Config, draft: Draft, db: Db, done: seq<Event>, cut: Db)
    requires WellFormed(cfg) && CutAt(cfg, draft, db, done, cut)
    ensures RequiredIn(cfg, draft, cut) == RequiredIn(cfg, draft, db)
  {
    if !draft.authentic {
      forall i | 0 <= i < |cfg.catalog| && cfg.catalog[i].id !in draft.disabled
        ensures HeldImages(cfg, cut)[i] == HeldImages(cfg, db)[i]
      {
        assert forall e <- done :: e.id != cfg.catalog[i].id;
      }
      ChordsSame(cfg, HeldImages(cfg, cut), HeldImages(cfg, db), draft, |cfg.catalog|);
    }
  }

  lemma {:induction false} ChordsSame(cfg: Config, a: seq<seq<Key>>, b: seq<seq<Key>>, draft: Draft, n: nat)
    requires |a| == |b| == |cfg.catalog| && n <= |cfg.catalog|
    requires forall i | 0 <= i < |cfg.catalog| && cfg.catalog[i].id !in draft.disabled :: a[i] == b[i]
    ensures LiveChords(cfg, a, draft, n) == LiveChords(cfg, b, draft, n)
  {
    if n > 0 {
      ChordsSame(cfg, a, b, draft, n - 1);
    }
  }

  lemma Written(done: seq<Event>, id: ActionId) returns (e: Option<Event>)
    ensures e.Some? ==> e.value in done && e.value.id == id
    ensures e.None? ==> forall f <- done :: f.id != id
  {
    if f :| f in done && f.id == id {
      e := Some(f);
    } else {
      e := None;
    }
  }

  lemma RowsStay(cfg: Config, draft: Draft, db: Db, done: seq<Event>, cut: Db)
    requires WellFormed(cfg) && CutAt(cfg, draft, db, done, cut) && RowsThere(cfg, draft, db)
    ensures RowsThere(cfg, draft, cut)
  {
    var row := LockRow(cfg);
    var e := Written(done, row.foreign);
    if e.Some? && FocusAuthentic(cfg, draft) {
      assert PlannedWrite(cfg, draft, db, e.value);
      NotInCatalog(cfg);
      LockPostHeld(row, db[row.foreign].active);
    }
  }

  lemma NotInCatalog(cfg: Config)
    requires WellFormed(cfg)
    ensures !InCatalog(cfg, LockRow(cfg).foreign)
  {
  }

  lemma StaysUnopposed(cfg: Config, draft: Draft, db: Db, done: seq<Event>, cut: Db)
    requires WellFormed(cfg) && CutAt(cfg, draft, db, done, cut) && Unopposed(cfg, draft, db)
    ensures Unopposed(cfg, draft, cut)
  {
    RequiredStays(cfg, draft, db, done, cut);
    forall k, id | k in RequiredIn(cfg, draft, db) && id in cut && k in cut[id].active
      ensures Exempt(cfg, id, k)
    {
      var e := Written(done, id);
      if e.Some? {
        assert PlannedWrite(cfg, draft, db, e.value);
      } else {
        assert KeyFree(cfg, db, k);
      }
    }
  }

  /** An Apply cut off after any of its writes can be begun again. */
  lemma StaysApplicable(cfg: Config, draft: Draft, db: Db, k: nat)
    requires WellFormed(cfg) && Applicable(cfg, draft, db) && k <= |Plan(cfg, draft, db)|
    ensures Applicable(cfg, draft, Run(db, Plan(cfg, draft, db)[..k]))
  {
    hide CutAt, RowsThere, Unopposed, Plan, Run, Listable;
    var done := Plan(cfg, draft, db)[..k];
    PlanCut(cfg, draft, db, k);
    PlanFits(cfg, draft, db);
    assert forall e <- done :: e in Plan(cfg, draft, db);
    RunListable(db, done);
    RowsStay(cfg, draft, db, done, Run(db, done));
    StaysUnopposed(cfg, draft, db, done, Run(db, done));
  }

  lemma ListsCut(cfg: Config, draft: Draft, order: seq<ActionId>, db: Db, k: nat)
    requires cfg.table != [] && Lists(order, db) && k <= |Plan(cfg, draft, db)|
    ensures Lists(order, Run(db, Plan(cfg, draft, db)[..k]))
  {
    RunKeepsIds(db, Plan(cfg, draft, db)[..k]);
  }

  /** An undisturbed Apply that nothing fails goes through exactly when it can begin and there are writes enough left. */
  lemma OutcomeExact(cfg: Config, draft: Draft, heard: Readings, order: seq<ActionId>, db: Db, owner: string, room: bool, ok: bool)
    requires WellFormed(cfg) && Lists(order, db) && (ok ==> DraftKnown(cfg, draft) && Listable(db))
    requires DraftKnown(cfg, draft) && Listable(db) ==>
               HeardOf(cfg, draft, heard, db, owner, ExactAnswers(order, db)) && (ok <==> CleanPreflight(cfg, draft, heard) && room)
    ensures ok <==> Applicable(cfg, draft, db) && room
  {
    hide CleanPreflight, HeardOf, Listable, DraftKnown;
    if DraftKnown(cfg, draft) && Listable(db) {
      CleanIffApplicable(cfg, draft, heard, order, db, owner);
    }
  }

  /** Cut off before or after some of its writes, an Apply can begin again exactly when it could at first. */
  lemma BeginsAgain(cfg: Config, draft: Draft, db: Db, k: nat)
    requires WellFormed(cfg) && k <= |Plan(cfg, draft, db)| && (k > 0 ==> Applicable(cfg, draft, db))
    ensures Applicable(cfg, draft, Run(db, Plan(cfg, draft, db)[..k])) <==> Applicable(cfg, draft, db)
  {
    hide Applicable, Plan;
    if k > 0 {
      StaysApplicable(cfg, draft, db, k);
    } else {
      assert Plan(cfg, draft, db)[..k] == [];
    }
  }

  // ---- more rows than one client may write ------------------------------------------------

  /** A draft that disables every row has every row that still holds something cleared. */
  lemma ClearEverything(cfg: Config, draft: Draft, db: Db)
    requires WellFormed(cfg) && forall entry <- cfg.catalog :: entry.id in draft.disabled && entry.id in db && db[entry.id].active != []
    ensures |Plan(cfg, draft, db)| == |cfg.catalog|
  {
    var i :| 0 <= i < |cfg.catalog| && cfg.catalog[i].id == LockRow(cfg).project;
    assert cfg.catalog[i] in cfg.catalog;
    NothingToAssign(cfg, draft, cfg.catalog);
    assert AssignSlots(cfg, draft, cfg.catalog) + ClearSlots(draft, cfg.catalog) == ClearSlots(draft, cfg.catalog);
    assert LockSlots(cfg, draft) + RowSlots(cfg, draft) == RowSlots(cfg, draft);
    AllDropped(draft, cfg.catalog, db);
  }

  lemma {:induction false} NothingToAssign(cfg: Config, draft: Draft, catalog: seq<CatalogEntry>)
    requires cfg.table != [] && forall entry <- catalog :: entry.id in draft.disabled
    ensures AssignSlots(cfg, draft, catalog) == []
    decreases |catalog|
  {
    if catalog != [] {
      assert catalog[|catalog| - 1] in catalog;
      NothingToAssign(cfg, draft, catalog[..|catalog| - 1]);
    }
  }

  lemma {:induction false} AllDropped(draft: Draft, catalog: seq<CatalogEntry>, db: Db)
    requires forall entry <- catalog :: entry.id in draft.disabled && entry.id in db && db[entry.id].active != []
    ensures |Needs(ClearSlots(draft, catalog), db)| == |catalog|
    decreases |catalog|
  {
    if catalog != [] {
      var front, last := catalog[..|catalog| - 1], catalog[|catalog| - 1];
      assert catalog == front + [last];
      AllDropped(draft, front, db);
      NeedsConcat(ClearSlots(draft, front), [Drop(last.id)], db);
      assert Needs([Drop(last.id)], db) == Need(Drop(last.id), db) + Needs([Drop(last.id)][1..], db);
    }
  }

  /** A catalog of 65 rows, none with a chord of its own. */
  function Row(i: nat): ActionId { ActionId("p", seq(i + 1, _ => 'r')) }

  const MANY_ROWS := seq(65, i requires 0 <= i < 65 => CatalogEntry(Row(i), 0))
  const MANY := Config(MANY_ROWS, [ConflictRow(Row(0), [7], ActionId("l", "l"), [1], [2], None)])

  /** An Apply can be in order and still ask for more writes than one client may make. */
  lemma PlanMayExceedWrites(ids: set<ActionId>)
    requires ids == set entry | entry in MANY_ROWS :: entry.id
    ensures var draft, db := Draft(ids, true), map id | id in ids :: Entry("", [7], []);
            WellFormed(MANY) && Applicable(MANY, draft, db) && |Plan(MANY, draft, db)| == 65 > MAX_WRITES
  {
    hide WellFormed, Applicable, Plan;
    ManyWellFormed();
    ManyApplicable(ids);
    ClearEverything(MANY, Draft(ids, true), map id | id in ids :: Entry("", [7], []));
  }

  lemma ManyApplicable(ids: set<ActionId>)
    requires ids == set entry | entry in MANY_ROWS :: entry.id
    ensures Applicable(MANY, Draft(ids, true), map id | id in ids :: Entry("", [7], []))
  {
    hide RequiredIn, RequiredKeys;
    var db := map id | id in ids :: Entry("", [7], []);
    forall id | id in ids
      ensures InCatalog(MANY, id) && IdValid(id)
    {
      var i :| 0 <= i < |MANY_ROWS| && MANY_ROWS[i].id == id;
      assert MANY.catalog[i].id == id;
    }
    assert db.Keys == ids && |db.Keys| == |db|;
    RowsAtMost(MANY_ROWS);
    assert MANY_ROWS[0].id in ids;
    ManyRequiresNothing(Draft(ids, true), db);
  }

  lemma ManyRequiresNothing(draft: Draft, db: Db)
    requires draft.authentic && forall entry <- MANY_ROWS :: entry.id in draft.disabled
    ensures RequiredIn(MANY, draft, db) == []
  {
    NothingRequired(MANY_ROWS, draft);
    assert MANY_ROWS[0].id in draft.disabled;
    assert RequiredIn(MANY, draft, db) == Dedup([]);
  }

  lemma ManyWellFormed()
    ensures WellFormed(MANY)
  {
    forall i, j | 0 <= i < j < |MANY_ROWS|
      ensures MANY_ROWS[i].id != MANY_ROWS[j].id
    {
      assert |Row(i).action| != |Row(j).action|;
    }
    assert MANY.catalog[0].id == Row(0);
    assert forall i | 0 <= i < |MANY_ROWS| :: IdValid(Row(i));
  }

  lemma {:induction false} RowsAtMost(catalog: seq<CatalogEntry>)
    ensures |set entry | entry in catalog :: entry.id| <= |catalog|
    decreases |catalog|
  {
    if catalog != [] {
      RowsAtMost(catalog[1..]);
      assert (set entry | entry in catalog :: entry.id) == {catalog[0].id} + (set entry | entry in catalog[1..] :: entry.id);
    }
  }

  lemma {:induction false} NothingRequired(catalog: seq<CatalogEntry>, draft: Draft)
    requires forall entry <- catalog :: entry.id in draft.disabled
    ensures Canonicals(catalog, draft) == []
    decreases |catalog|
  {
    if catalog != [] {
      assert catalog[|catalog| - 1] in catalog;
      NothingRequired(catalog[..|catalog| - 1], draft);
    }
  }
}
