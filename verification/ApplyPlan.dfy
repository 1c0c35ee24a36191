// What Apply writes when nobody else does: the ordered plan as a function of
// the daemon's state, and what holds after every prefix of it.

module ApplyPlan {
  import opened Prelude
  import opened Shortcuts
  import opened ShortcutStore

  /** One place of the plan; whether it writes depends on that action alone. */
  datatype Slot = Own(id: ActionId, post: seq<Key>) | Relocate(id: ActionId, row: ConflictRow) | Drop(id: ActionId)

  function Goal(slot: Slot, active: seq<Key>): seq<Key> {
    match slot
    case Own(_, post) => post
    case Relocate(_, row) => LockPost(row, active)
    case Drop(_) => []
  }

  /** The write a slot needs, if any. */
  function Need(slot: Slot, db: Db): seq<Event> {
    if slot.id !in db then []
    else
      var active := db[slot.id].active;
      if active == Goal(slot, active) then [] else [Assign(slot.id, Goal(slot, active))]
  }

  function Needs(slots: seq<Slot>, db: Db): seq<Event> {
    if slots == [] then [] else Need(slots[0], db) + Needs(slots[1..], db)
  }

  /** Focus first, then the lock. */
  function LockSlots(cfg: Config, draft: Draft): seq<Slot>
    requires cfg.table != []
  {
    var row := LockRow(cfg);
    if FocusAuthentic(cfg, draft) then [Own(row.project, row.post), Relocate(row.foreign, row)] else []
  }

  /** Authentic rows other than an Authentic focus row, in catalog order. */
  function AssignSlots(cfg: Config, draft: Draft, catalog: seq<CatalogEntry>): seq<Slot>
    requires cfg.table != []
  {
    if catalog == [] then []
    else
      var last := catalog[|catalog| - 1];
      AssignSlots(cfg, draft, catalog[..|catalog| - 1]) +
      (if !draft.authentic || last.id in draft.disabled || last.id == LockRow(cfg).project then []
       else [Own(last.id, ExpectedPost(cfg, last))])
  }

  /** Disabled rows, in catalog order. */
  function ClearSlots(draft: Draft, catalog: seq<CatalogEntry>): seq<Slot> {
    if catalog == [] then []
    else
      var last := catalog[|catalog| - 1];
      ClearSlots(draft, catalog[..|catalog| - 1]) + (if last.id in draft.disabled then [Drop(last.id)] else [])
  }

  function RowSlots(cfg: Config, draft: Draft): seq<Slot>
    requires cfg.table != []
  {
    AssignSlots(cfg, draft, cfg.catalog) + ClearSlots(draft, cfg.catalog)
  }

  function Slots(cfg: Config, draft: Draft): seq<Slot>
    requires cfg.table != []
  {
    LockSlots(cfg, draft) + RowSlots(cfg, draft)
  }

  function Plan(cfg: Config, draft: Draft, db: Db): seq<Event>
    requires cfg.table != []
  {
    Needs(Slots(cfg, draft), db)
  }

  // ---- runs of writes ---------------------------------------------------------

  ghost predicate DistinctSlots(slots: seq<Slot>) {
    forall i, j :: 0 <= i < j < |slots| ==> slots[i].id != slots[j].id
  }

  /** Relocation rows never put an old chord back. */
  ghost predicate Relocatable(slots: seq<Slot>) {
    forall s <- slots :: s.Relocate? ==> forall k <- s.row.foreignPre :: k !in s.row.target
  }

  lemma RunOne(db: Db, e: Event)
    ensures Run(db, [e]) == Put(db, e.id, e.keys)
  {
    assert [e][..0] == [];
  }

  lemma {:induction false} RunConcat(db: Db, a: seq<Event>, b: seq<Event>)
    ensures Run(db, a + b) == Run(Run(db, a), b)
    decreases |b|
  {
    if b == [] {
      assert a + b == a;
    } else {
      assert (a + b)[..|a + b| - 1] == a + b[..|b| - 1];
      RunConcat(db, a, b[..|b| - 1]);
    }
  }

  lemma {:induction false} RunElsewhere(db: Db, events: seq<Event>, id: ActionId)
    requires forall e <- events :: e.id != id
    ensures id in Run(db, events) <==> id in db
    ensures id in db ==> Run(db, events)[id] == db[id]
    decreases |events|
  {
    if events != [] {
      RunElsewhere(db, events[..|events| - 1], id);
    }
  }

  lemma {:induction false} NeedsIds(slots: seq<Slot>, db: Db)
    ensures forall e <- Needs(slots, db) :: e.Assign? && exists s <- slots :: s.id == e.id
    ensures |Needs(slots, db)| <= |slots|
  {
    if slots != [] {
      NeedsIds(slots[1..], db);
      assert slots[0] in slots;
      forall e <- Needs(slots[1..], db)
        ensures exists s <- slots :: s.id == e.id
      {
        var s :| s in slots[1..] && s.id == e.id;
        assert s in slots;
      }
    }
  }

  lemma {:induction false} NeedsConcat(a: seq<Slot>, b: seq<Slot>, db: Db)
    ensures Needs(a + b, db) == Needs(a, db) + Needs(b, db)
  {
    if a == [] {
      assert a + b == b;
    } else {
      assert (a + b)[1..] == a[1..] + b;
      NeedsConcat(a[1..], b, db);
    }
  }

  /** Needs look at their own actions only. */
  lemma {:induction false} NeedsLocal(slots: seq<Slot>, db: Db, other: Db)
    requires forall s <- slots :: (s.id in db <==> s.id in other) && (s.id in db ==> db[s.id] == other[s.id])
    ensures Needs(slots, db) == Needs(slots, other)
  {
    if slots != [] {
      assert slots[0] in slots;
      NeedsLocal(slots[1..], db, other);
    }
  }

  lemma Settles(slot: Slot, db: Db)
    requires slot.Relocate? ==> forall k <- slot.row.foreignPre :: k !in slot.row.target
    ensures Need(slot, Run(db, Need(slot, db))) == []
  {
    if Need(slot, db) != [] {
      RunOne(db, Need(slot, db)[0]);
      if slot.Relocate? {
        LockPostIdempotent(slot.row, db[slot.id].active);
      }
    }
  }

  /** The later writes of a plan leave its first slot settled. */
  lemma HeadStaysSettled(slots: seq<Slot>, db: Db, cut: nat)
    requires slots != [] && DistinctSlots(slots) && Relocatable(slots)
    requires cut <= |Needs(slots[1..], db)|
    ensures Need(slots[0], Run(Run(db, Need(slots[0], db)), Needs(slots[1..], db)[..cut])) == []
  {
    var later := Needs(slots[1..], db);
    NeedsIds(slots[1..], db);
    forall e <- later[..cut]
      ensures e.id != slots[0].id
    {
      assert e in later;
      var s :| s in slots[1..] && s.id == e.id;
    }
    RunElsewhere(Run(db, Need(slots[0], db)), later[..cut], slots[0].id);
    Settles(slots[0], db);
  }

  /** Cut off after any number of its writes, a re-run plans exactly the writes that were left. */
  lemma {:induction false} NeedsResume(slots: seq<Slot>, db: Db, k: nat)
    requires DistinctSlots(slots) && Relocatable(slots)
    requires k <= |Needs(slots, db)|
    ensures Needs(slots, Run(db, Needs(slots, db)[..k])) == Needs(slots, db)[k..]
    decreases |slots|
  {
    if k == 0 {
      assert Needs(slots, db)[..0] == [];
    } else {
      var head, later := Need(slots[0], db), Needs(slots[1..], db);
      var cut := k - |head|;
      NeedsResume'(slots, db, k, head, later, cut);
    }
  }

  lemma {:induction false} NeedsResume'(slots: seq<Slot>, db: Db, k: nat, head: seq<Event>, later: seq<Event>, cut: nat)
    requires DistinctSlots(slots) && Relocatable(slots) && slots != []
    requires head == Need(slots[0], db) && later == Needs(slots[1..], db) && cut <= |later| && k == |head| + cut
    ensures Needs(slots, Run(db, Needs(slots, db)[..k])) == Needs(slots, db)[k..]
    decreases |slots|, 0
  {
    var mid := Run(db, head);
    assert (head + later)[..k] == head + later[..cut] && (head + later)[k..] == later[cut..];
    RunConcat(db, head, later[..cut]);
    HeadElsewhere(slots, db);
    HeadStaysSettled(slots, db, cut);
    NeedsResume(slots[1..], mid, cut);
    assert Needs(slots, Run(mid, later[..cut])) == [] + later[cut..];
  }

  lemma HeadElsewhere(slots: seq<Slot>, db: Db)
    requires slots != [] && DistinctSlots(slots)
    ensures Needs(slots[1..], Run(db, Need(slots[0], db))) == Needs(slots[1..], db)
  {
    var head := Need(slots[0], db);
    forall s: Slot <- slots[1..]
      ensures s.id in Run(db, head) <==> s.id in db
      ensures s.id in db ==> Run(db, head)[s.id] == db[s.id]
    {
      RunElsewhere(db, head, s.id);
    }
    NeedsLocal(slots[1..], Run(db, head), db);
  }

  /** A full run leaves each slot's action at its goal. */
  lemma {:induction false} SlotReached(slots: seq<Slot>, db: Db, s: Slot)
    requires DistinctSlots(slots) && s in slots && s.id in db
    ensures s.id in Run(db, Needs(slots, db)) && Run(db, Needs(slots, db))[s.id].active == Goal(s, db[s.id].active)
    decreases |slots|
  {
    var head, later := Need(slots[0], db), Needs(slots[1..], db);
    var mid := Run(db, head);
    RunConcat(db, head, later);
    HeadElsewhere(slots, db);
    if s == slots[0] {
      if head != [] { RunOne(db, head[0]); }
      NeedsIds(slots[1..], db);
      forall e <- later
        ensures e.id != s.id
      {
        var t :| t in slots[1..] && t.id == e.id;
      }
      RunElsewhere(mid, later, s.id);
    } else {
      RunElsewhere(db, head, s.id);
      SlotReached(slots[1..], mid, s);
    }
  }

  /** An action no slot names keeps its keys. */
  lemma UnplannedStays(slots: seq<Slot>, db: Db, id: ActionId)
    requires forall s <- slots :: s.id != id
    ensures id in Run(db, Needs(slots, db)) <==> id in db
    ensures id in db ==> Run(db, Needs(slots, db))[id] == db[id]
  {
    NeedsIds(slots, db);
    RunElsewhere(db, Needs(slots, db), id);
  }

  // ---- the plan's slots ----------------------------------------------------------

  lemma {:induction false} AssignSlotIds(cfg: Config, draft: Draft, catalog: seq<CatalogEntry>)
    requires cfg.table != []
    ensures forall s <- AssignSlots(cfg, draft, catalog) ::
              s.Own? && s.id !in draft.disabled && s.id != LockRow(cfg).project && draft.authentic &&
              exists e <- catalog :: e.id == s.id && s.post == ExpectedPost(cfg, e)
    ensures forall e <- catalog :: draft.authentic && e.id !in draft.disabled && e.id != LockRow(cfg).project ==>
              Own(e.id, ExpectedPost(cfg, e)) in AssignSlots(cfg, draft, catalog)
    decreases |catalog|
  {
    if catalog != [] {
      var front, last := catalog[..|catalog| - 1], catalog[|catalog| - 1];
      assert catalog == front + [last];
      AssignSlotIds(cfg, draft, front);
      assert last in catalog;
      forall s <- AssignSlots(cfg, draft, front)
        ensures exists e <- catalog :: e.id == s.id && s.post == ExpectedPost(cfg, e)
      {
        var e :| e in front && e.id == s.id && s.post == ExpectedPost(cfg, e);
        assert e in catalog;
      }
    }
  }

  lemma {:induction false} ClearSlotIds(draft: Draft, catalog: seq<CatalogEntry>)
    ensures forall s <- ClearSlots(draft, catalog) :: s.Drop? && s.id in draft.disabled && exists e <- catalog :: e.id == s.id
    ensures forall e <- catalog :: e.id in draft.disabled ==> Drop(e.id) in ClearSlots(draft, catalog)
    decreases |catalog|
  {
    if catalog != [] {
      var front, last := catalog[..|catalog| - 1], catalog[|catalog| - 1];
      assert catalog == front + [last];
      ClearSlotIds(draft, front);
      assert last in catalog;
      forall s <- ClearSlots(draft, front)
        ensures exists e <- catalog :: e.id == s.id
      {
        var e :| e in front && e.id == s.id;
        assert e in catalog;
      }
    }
  }

  ghost predicate DistinctIds(catalog: seq<CatalogEntry>) {
    forall i, j :: 0 <= i < j < |catalog| ==> catalog[i].id != catalog[j].id
  }

  lemma {:induction false} AssignSlotsDistinct(cfg: Config, draft: Draft, catalog: seq<CatalogEntry>)
    requires cfg.table != [] && DistinctIds(catalog)
    ensures DistinctSlots(AssignSlots(cfg, draft, catalog))
    ensures |AssignSlots(cfg, draft, catalog)| <= |catalog|
    decreases |catalog|
  {
    if catalog != [] {
      AssignSlotsDistinct(cfg, draft, catalog[..|catalog| - 1]);
      AssignSlotIds(cfg, draft, catalog[..|catalog| - 1]);
    }
  }

  lemma {:induction false} ClearSlotsDistinct(draft: Draft, catalog: seq<CatalogEntry>)
    requires DistinctIds(catalog)
    ensures DistinctSlots(ClearSlots(draft, catalog))
    ensures |ClearSlots(draft, catalog)| <= |catalog|
    decreases |catalog|
  {
    if catalog != [] {
      ClearSlotsDistinct(draft, catalog[..|catalog| - 1]);
      ClearSlotIds(draft, catalog[..|catalog| - 1]);
    }
  }

  lemma DistinctConcat(a: seq<Slot>, b: seq<Slot>)
    requires DistinctSlots(a) && DistinctSlots(b)
    requires forall s, t :: s in a && t in b ==> s.id != t.id
    ensures DistinctSlots(a + b)
  {
    forall i, j | 0 <= i < j < |a + b|
      ensures (a + b)[i].id != (a + b)[j].id
    {
      if i < |a| <= j {
        assert (a + b)[i] in a && (a + b)[j] in b;
      }
    }
  }

  /** Row slots belong to catalog rows, never relocate, and leave an Authentic focus to the lock slots. */
  lemma RowSlotIds(cfg: Config, draft: Draft, s: Slot)
    requires WellFormed(cfg) && s in RowSlots(cfg, draft)
    ensures !s.Relocate? && InCatalog(cfg, s.id) && s.id != LockRow(cfg).foreign
    ensures FocusAuthentic(cfg, draft) ==> s.id != LockRow(cfg).project
  {
    AssignSlotIds(cfg, draft, cfg.catalog);
    ClearSlotIds(draft, cfg.catalog);
    var e :| e in cfg.catalog && e.id == s.id;
  }

  lemma RowSlotsDistinct(cfg: Config, draft: Draft)
    requires WellFormed(cfg)
    ensures DistinctSlots(RowSlots(cfg, draft))
  {
    AssignSlotsDistinct(cfg, draft, cfg.catalog);
    ClearSlotsDistinct(draft, cfg.catalog);
    AssignSlotIds(cfg, draft, cfg.catalog);
    ClearSlotIds(draft, cfg.catalog);
    DistinctConcat(AssignSlots(cfg, draft, cfg.catalog), ClearSlots(draft, cfg.catalog));
  }

  lemma SlotsDistinct(cfg: Config, draft: Draft)
    requires WellFormed(cfg)
    ensures DistinctSlots(Slots(cfg, draft)) && Relocatable(Slots(cfg, draft))
  {
    RowSlotsDistinct(cfg, draft);
    var l, r := LockSlots(cfg, draft), RowSlots(cfg, draft);
    forall s | s in r
      ensures !s.Relocate? && s.id != LockRow(cfg).foreign && (FocusAuthentic(cfg, draft) ==> s.id != LockRow(cfg).project)
    {
      RowSlotIds(cfg, draft, s);
    }
    assert DistinctSlots(l) by {
      var i :| 0 <= i < |cfg.catalog| && cfg.catalog[i].id == LockRow(cfg).project;
    }
    DistinctConcat(l, r);
  }

  // ---- main results --------------------------------------------------------------

  /** Re-running Apply after it was cut off at any write plans exactly the rest, so it
      ends in the same state as an uninterrupted run; after a full run nothing is left. */
  lemma InterruptedApplyResumes(cfg: Config, draft: Draft, db: Db, k: nat)
    requires WellFormed(cfg) && k <= |Plan(cfg, draft, db)|
    ensures var cut := Run(db, Plan(cfg, draft, db)[..k]);
            && Plan(cfg, draft, cut) == Plan(cfg, draft, db)[k..]
            && Run(cut, Plan(cfg, draft, cut)) == Run(db, Plan(cfg, draft, db))
    ensures Plan(cfg, draft, Run(db, Plan(cfg, draft, db))) == []
  {
    var plan := Plan(cfg, draft, db);
    SlotsDistinct(cfg, draft);
    NeedsResume(Slots(cfg, draft), db, k);
    RunConcat(db, plan[..k], plan[k..]);
    assert plan[..k] + plan[k..] == plan;
    NeedsResume(Slots(cfg, draft), db, |plan|);
    assert plan[..|plan|] == plan;
  }

  ghost predicate DistinctWrites(done: seq<Event>) {
    forall i, j :: 0 <= i < j < |done| ==> done[i].id != done[j].id
  }

  lemma {:induction false} NeedsDistinct(slots: seq<Slot>, db: Db)
    requires DistinctSlots(slots)
    ensures DistinctWrites(Needs(slots, db))
  {
    if slots != [] {
      NeedsDistinct(slots[1..], db);
      NeedsIds(slots[1..], db);
    }
  }

  /** The plan touches catalog rows and, with an Authentic focus, the lock; no action twice, so at
      most one write per row plus one. */
  lemma PlanBounded(cfg: Config, draft: Draft, db: Db)
    requires WellFormed(cfg)
    ensures forall e <- Plan(cfg, draft, db) :: e.Assign? && (InCatalog(cfg, e.id) || (e.id == LockRow(cfg).foreign && FocusAuthentic(cfg, draft)))
    ensures DistinctWrites(Plan(cfg, draft, db)) && |Plan(cfg, draft, db)| <= |cfg.catalog| + 1
  {
    var slots := Slots(cfg, draft);
    SlotsDistinct(cfg, draft);
    SlotsBounded(cfg, draft);
    NeedsDistinct(slots, db);
    NeedsIds(slots, db);
    forall e | e in Plan(cfg, draft, db)
      ensures InCatalog(cfg, e.id) || (e.id == LockRow(cfg).foreign && FocusAuthentic(cfg, draft))
    {
      var s :| s in slots && s.id == e.id;
      if s in RowSlots(cfg, draft) {
        RowSlotIds(cfg, draft, s);
      }
    }
  }

  /** The order of the writes: an Authentic focus, the lock, the other enabled rows and then the
      disabled ones, both in catalog order. */
  ghost predicate Precedes(cfg: Config, draft: Draft, a: ActionId, b: ActionId)
    requires cfg.table != []
  {
    if FocusAuthentic(cfg, draft) && b == LockRow(cfg).project then false
    else if FocusAuthentic(cfg, draft) && a == LockRow(cfg).project then true
    else if b == LockRow(cfg).foreign then false
    else if a == LockRow(cfg).foreign then true
    else if a in draft.disabled || b !in draft.disabled then (a in draft.disabled ==> b in draft.disabled) && CatalogOrder(cfg, a, b)
    else true
  }

  ghost predicate CatalogOrder(cfg: Config, a: ActionId, b: ActionId) {
    exists i, j :: 0 <= i < j < |cfg.catalog| && cfg.catalog[i].id == a && cfg.catalog[j].id == b
  }

  ghost predicate SlotsInOrder(cfg: Config, draft: Draft, slots: seq<Slot>)
    requires cfg.table != []
  {
    forall i, j :: 0 <= i < j < |slots| ==> Precedes(cfg, draft, slots[i].id, slots[j].id)
  }

  lemma EarlierRow(cfg: Config, n: nat, e: CatalogEntry)
    requires 0 < n <= |cfg.catalog| && e in cfg.catalog[..n - 1]
    ensures CatalogOrder(cfg, e.id, cfg.catalog[n - 1].id)
  {
    var i :| 0 <= i < n - 1 && cfg.catalog[..n - 1][i] == e;
    assert cfg.catalog[i].id == e.id;
  }

  lemma InOrderJoin(cfg: Config, draft: Draft, a: seq<Slot>, b: seq<Slot>)
    requires cfg.table != [] && SlotsInOrder(cfg, draft, a) && SlotsInOrder(cfg, draft, b)
    requires forall s, t | s in a && t in b :: Precedes(cfg, draft, s.id, t.id)
    ensures SlotsInOrder(cfg, draft, a + b)
  {
    hide Precedes;
    forall i, j | 0 <= i < j < |a + b|
      ensures Precedes(cfg, draft, (a + b)[i].id, (a + b)[j].id)
    {
      if i < |a| <= j {
        assert (a + b)[i] in a && (a + b)[j] in b;
      }
    }
  }

  lemma {:induction false} AssignSlotsInOrder(cfg: Config, draft: Draft, n: nat)
    requires WellFormed(cfg) && n <= |cfg.catalog|
    ensures SlotsInOrder(cfg, draft, AssignSlots(cfg, draft, cfg.catalog[..n]))
  {
    hide ExpectedPost, FocusAuthentic, CatalogOrder, Precedes;
    if n > 0 {
      var front, last := cfg.catalog[..n - 1], cfg.catalog[n - 1];
      assert cfg.catalog[..n][..n - 1] == front;
      AssignSlotsInOrder(cfg, draft, n - 1);
      AssignSlotIds(cfg, draft, front);
      if draft.authentic && last.id !in draft.disabled && last.id != LockRow(cfg).project {
        var earlier, slot := AssignSlots(cfg, draft, front), Own(last.id, ExpectedPost(cfg, last));
        forall s | s in earlier
          ensures Precedes(cfg, draft, s.id, last.id)
        {
          var e :| e in front && e.id == s.id;
          EarlierRow(cfg, n, e);
          RowsPrecede(cfg, draft, e, last);
        }
        InOrderJoin(cfg, draft, earlier, [slot]);
      }
    }
  }

  lemma {:induction false} ClearSlotsInOrder(cfg: Config, draft: Draft, n: nat)
    requires WellFormed(cfg) && n <= |cfg.catalog|
    ensures SlotsInOrder(cfg, draft, ClearSlots(draft, cfg.catalog[..n]))
  {
    hide CatalogOrder, Precedes;
    if n > 0 {
      var front, last := cfg.catalog[..n - 1], cfg.catalog[n - 1];
      assert cfg.catalog[..n][..n - 1] == front;
      ClearSlotsInOrder(cfg, draft, n - 1);
      ClearSlotIds(draft, front);
      if last.id in draft.disabled {
        var earlier := ClearSlots(draft, front);
        forall s | s in earlier
          ensures Precedes(cfg, draft, s.id, last.id)
        {
          var e :| e in front && e.id == s.id;
          EarlierRow(cfg, n, e);
          RowsPrecede(cfg, draft, e, last);
        }
        InOrderJoin(cfg, draft, earlier, [Drop(last.id)]);
      }
    }
  }

  /** Rows of one kind follow the catalog, and enabled ones come before disabled ones. */
  lemma RowsPrecede(cfg: Config, draft: Draft, e: CatalogEntry, f: CatalogEntry)
    requires WellFormed(cfg) && e in cfg.catalog && f in cfg.catalog
    requires FocusAuthentic(cfg, draft) ==> f.id != LockRow(cfg).project
    requires e.id in draft.disabled ==> f.id in draft.disabled
    requires (e.id in draft.disabled) == (f.id in draft.disabled) ==> CatalogOrder(cfg, e.id, f.id)
    ensures Precedes(cfg, draft, e.id, f.id)
  {
    assert InCatalog(cfg, e.id) && InCatalog(cfg, f.id);
  }

  lemma LockPrecedes(cfg: Config, draft: Draft, f: CatalogEntry)
    requires WellFormed(cfg) && f in cfg.catalog && FocusAuthentic(cfg, draft) && f.id != LockRow(cfg).project
    ensures Precedes(cfg, draft, LockRow(cfg).project, f.id) && Precedes(cfg, draft, LockRow(cfg).foreign, f.id)
  {
    assert InCatalog(cfg, f.id);
  }

  lemma FocusPrecedes(cfg: Config, draft: Draft)
    requires WellFormed(cfg) && FocusAuthentic(cfg, draft)
    ensures Precedes(cfg, draft, LockRow(cfg).project, LockRow(cfg).foreign)
  {
    var i :| 0 <= i < |cfg.catalog| && cfg.catalog[i].id == LockRow(cfg).project;
  }

  lemma RowSlotsInOrder(cfg: Config, draft: Draft)
    requires WellFormed(cfg)
    ensures SlotsInOrder(cfg, draft, RowSlots(cfg, draft))
  {
    hide Precedes, CatalogOrder;
    var n := |cfg.catalog|;
    assert cfg.catalog[..n] == cfg.catalog;
    AssignSlotsInOrder(cfg, draft, n);
    ClearSlotsInOrder(cfg, draft, n);
    AssignSlotIds(cfg, draft, cfg.catalog);
    ClearSlotIds(draft, cfg.catalog);
    forall s, t | s in AssignSlots(cfg, draft, cfg.catalog) && t in ClearSlots(draft, cfg.catalog)
      ensures Precedes(cfg, draft, s.id, t.id)
    {
      var e :| e in cfg.catalog && e.id == s.id;
      var f :| f in cfg.catalog && f.id == t.id;
      RowsPrecede(cfg, draft, e, f);
    }
    InOrderJoin(cfg, draft, AssignSlots(cfg, draft, cfg.catalog), ClearSlots(draft, cfg.catalog));
  }

  lemma PlanSlotsInOrder(cfg: Config, draft: Draft)
    requires WellFormed(cfg)
    ensures SlotsInOrder(cfg, draft, Slots(cfg, draft))
  {
    hide Precedes, CatalogOrder, RowSlots;
    RowSlotsInOrder(cfg, draft);
    var l, r := LockSlots(cfg, draft), RowSlots(cfg, draft);
    if l != [] {
      forall t | t in r
        ensures forall s <- l :: Precedes(cfg, draft, s.id, t.id)
      {
        RowSlotIds(cfg, draft, t);
        var f :| f in cfg.catalog && f.id == t.id;
        LockPrecedes(cfg, draft, f);
      }
      FocusPrecedes(cfg, draft);
    }
    InOrderJoin(cfg, draft, l, r);
  }

  lemma {:induction false} NeedsInOrder(cfg: Config, draft: Draft, slots: seq<Slot>, db: Db)
    requires cfg.table != [] && SlotsInOrder(cfg, draft, slots)
    ensures forall i, j :: 0 <= i < j < |Needs(slots, db)| ==> Precedes(cfg, draft, Needs(slots, db)[i].id, Needs(slots, db)[j].id)
  {
    hide Precedes;
    if slots != [] {
      assert SlotsInOrder(cfg, draft, slots[1..]);
      NeedsInOrder(cfg, draft, slots[1..], db);
      NeedsIds(slots[1..], db);
      var rest := Needs(slots[1..], db);
      forall e | e in rest
        ensures Precedes(cfg, draft, slots[0].id, e.id)
      {
        var s :| s in slots[1..] && s.id == e.id;
      }
    }
  }

  /** A plan relocates the lock before it touches any row but focus-right, and assigns before it clears. */
  lemma PlanInOrder(cfg: Config, draft: Draft, db: Db, i: nat, j: nat)
    requires WellFormed(cfg) && i < j < |Plan(cfg, draft, db)|
    ensures Precedes(cfg, draft, Plan(cfg, draft, db)[i].id, Plan(cfg, draft, db)[j].id)
  {
    PlanSlotsInOrder(cfg, draft);
    NeedsInOrder(cfg, draft, Slots(cfg, draft), db);
  }

  /** After a full run every present row is where the draft wants it: disabled rows empty, Authentic
      rows at their posts, kept rows as they were. */
  lemma PlanReachesRow(cfg: Config, draft: Draft, db: Db, i: nat)
    requires WellFormed(cfg) && i < |cfg.catalog| && cfg.catalog[i].id in db
    ensures var entry, after := cfg.catalog[i], Run(db, Plan(cfg, draft, db));
            && entry.id in after
            && after[entry.id].active == (if entry.id in draft.disabled then []
                                          else if draft.authentic then ExpectedPost(cfg, entry) else db[entry.id].active)
            && (entry.id !in draft.disabled && draft.authentic ==> AtPost(cfg, entry, after[entry.id].active))
  {
    var entry := cfg.catalog[i];
    SlotsDistinct(cfg, draft);
    AssignSlotIds(cfg, draft, cfg.catalog);
    ClearSlotIds(draft, cfg.catalog);
    if entry.id in draft.disabled {
      assert Drop(entry.id) in Slots(cfg, draft);
      SlotReached(Slots(cfg, draft), db, Drop(entry.id));
    } else if draft.authentic {
      var slot := if entry.id == LockRow(cfg).project then Own(entry.id, LockRow(cfg).post) else Own(entry.id, ExpectedPost(cfg, entry));
      assert slot in LockSlots(cfg, draft) || slot in RowSlots(cfg, draft);
      SlotReached(Slots(cfg, draft), db, slot);
      ExpectedPostIsAtPost(cfg, entry, ExpectedPost(cfg, entry));
    } else {
      KeptRowUnplanned(cfg, draft, entry.id);
      UnplannedStays(Slots(cfg, draft), db, entry.id);
    }
  }

  lemma KeptRowUnplanned(cfg: Config, draft: Draft, id: ActionId)
    requires WellFormed(cfg) && !draft.authentic && id !in draft.disabled
    ensures forall s <- Slots(cfg, draft) :: s.id != id
  {
    AssignSlotIds(cfg, draft, cfg.catalog);
    ClearSlotIds(draft, cfg.catalog);
  }

  /** And Lock Session, when in scope, is relocated. */
  lemma PlanReachesLock(cfg: Config, draft: Draft, db: Db)
    requires WellFormed(cfg) && FocusAuthentic(cfg, draft) && LockRow(cfg).foreign in db
    ensures var id, after := LockRow(cfg).foreign, Run(db, Plan(cfg, draft, db));
            id in after && after[id].active == LockPost(LockRow(cfg), db[id].active)
  {
    SlotsDistinct(cfg, draft);
    var slot := Relocate(LockRow(cfg).foreign, LockRow(cfg));
    assert slot in LockSlots(cfg, draft) && slot in Slots(cfg, draft);
    SlotReached(Slots(cfg, draft), db, slot);
  }

  /** Lock Session keeps one of its chords. */
  ghost predicate LockHeld(cfg: Config, db: Db)
    requires cfg.table != []
  {
    var row := LockRow(cfg);
    row.foreign in db &&
    (HoldsAny(db[row.foreign].active, row.foreignPre) || HoldsAny(db[row.foreign].active, row.target))
  }

  /** What the lock slots write: focus to its post, then the lock relocated. */
  lemma LockNeeds(cfg: Config, draft: Draft, db: Db)
    requires WellFormed(cfg) && FocusAuthentic(cfg, draft)
    ensures var row := LockRow(cfg);
            Needs(LockSlots(cfg, draft), db) == Need(Own(row.project, row.post), db) + Need(Relocate(row.foreign, row), db)
  {
    var row := LockRow(cfg);
    var f, l := Own(row.project, row.post), Relocate(row.foreign, row);
    assert [f, l][1..] == [l] && [l][1..] == [];
    assert Needs([l], db) == Need(l, db) + Needs([], db);
  }

  lemma RowNeedsElsewhere(cfg: Config, draft: Draft, db: Db, e: Event)
    requires WellFormed(cfg) && e in Needs(RowSlots(cfg, draft), db)
    ensures InCatalog(cfg, e.id) && e.id != LockRow(cfg).foreign
    ensures FocusAuthentic(cfg, draft) ==> e.id != LockRow(cfg).project
  {
    NeedsIds(RowSlots(cfg, draft), db);
    var s :| s in RowSlots(cfg, draft) && s.id == e.id;
    RowSlotIds(cfg, draft, s);
  }

  /** The lock's story up to db': still held, and changed only under a settled focus. */
  ghost predicate LockSafe(cfg: Config, start: Db, now: Db)
    requires cfg.table != []
  {
    var row := LockRow(cfg);
    && LockHeld(cfg, now)
    && row.project in now && row.foreign in start
    && (now[row.foreign].active != start[row.foreign].active ==> now[row.project].active == row.post)
  }

  /** At every point of a run, Lock Session still holds an old chord or a target chord if it
      did at the start, and it has lost an old chord only when focus-right's list is exactly its post. */
  lemma LockNeverLost(cfg: Config, draft: Draft, db: Db, k: nat)
    requires WellFormed(cfg) && k <= |Plan(cfg, draft, db)|
    requires LockRow(cfg).project in db && LockHeld(cfg, db)
    ensures LockSafe(cfg, db, Run(db, Plan(cfg, draft, db)[..k]))
  {
    hide LockSafe, LockHeld, Run, Needs, LockSlots, RowSlots;
    var locks, rows := Needs(LockSlots(cfg, draft), db), Needs(RowSlots(cfg, draft), db);
    NeedsConcat(LockSlots(cfg, draft), RowSlots(cfg, draft), db);
    if k <= |locks| {
      CutShort(locks, rows, k);
      LockPrefix(cfg, draft, db, k);
    } else {
      CutLong(locks, rows, k);
      LockSafeLate(cfg, draft, db, k - |locks|);
    }
  }

  lemma LockSafeLate(cfg: Config, draft: Draft, db: Db, m: nat)
    requires WellFormed(cfg) && m <= |Needs(RowSlots(cfg, draft), db)|
    requires LockRow(cfg).project in db && LockHeld(cfg, db)
    ensures LockSafe(cfg, db, Run(db, Needs(LockSlots(cfg, draft), db) + Needs(RowSlots(cfg, draft), db)[..m]))
  {
    hide LockSafe, LockHeld;
    var locks := Needs(LockSlots(cfg, draft), db);
    assert locks[..|locks|] == locks;
    LockPrefix(cfg, draft, db, |locks|);
    LockSafeThrough(cfg, draft, db, locks, m);
  }

  lemma CutShort<T>(a: seq<T>, b: seq<T>, k: nat)
    requires k <= |a|
    ensures (a + b)[..k] == a[..k]
  {
  }

  lemma CutLong<T>(a: seq<T>, b: seq<T>, k: nat)
    requires |a| <= k <= |a| + |b|
    ensures (a + b)[..k] == a + b[..k - |a|]
  {
  }

  lemma LockSafeThrough(cfg: Config, draft: Draft, db: Db, done: seq<Event>, m: nat)
    requires WellFormed(cfg) && m <= |Needs(RowSlots(cfg, draft), db)| && LockSafe(cfg, db, Run(db, done))
    requires FocusAuthentic(cfg, draft) || Run(db, done) == db
    ensures LockSafe(cfg, db, Run(db, done + Needs(RowSlots(cfg, draft), db)[..m]))
  {
    hide LockSafe;
    LockUntouched(cfg, draft, db, Run(db, done), m);
    RunConcat(db, done, Needs(RowSlots(cfg, draft), db)[..m]);
  }

  /** The row writes leave the lock alone, and an Authentic focus too. */
  lemma LockUntouched(cfg: Config, draft: Draft, db: Db, mid: Db, m: nat)
    requires WellFormed(cfg) && m <= |Needs(RowSlots(cfg, draft), db)|
    requires LockSafe(cfg, db, mid)
    requires FocusAuthentic(cfg, draft) || mid == db
    ensures LockSafe(cfg, db, Run(mid, Needs(RowSlots(cfg, draft), db)[..m]))
  {
    var row := LockRow(cfg);
    var rows := Needs(RowSlots(cfg, draft), db)[..m];
    forall e <- rows
      ensures e.id != row.foreign && (FocusAuthentic(cfg, draft) ==> e.id != row.project)
    {
      RowNeedsElsewhere(cfg, draft, db, e);
    }
    RunElsewhere(mid, rows, row.foreign);
    RunKeepsIds(mid, rows);
    if FocusAuthentic(cfg, draft) {
      RunElsewhere(mid, rows, row.project);
    }
  }

  lemma {:induction false} RunKeepsIds(db: Db, events: seq<Event>)
    ensures Run(db, events).Keys == db.Keys
    decreases |events|
  {
    if events != [] {
      RunKeepsIds(db, events[..|events| - 1]);
    }
  }

  lemma LockPrefix(cfg: Config, draft: Draft, db: Db, n: nat)
    requires WellFormed(cfg)
    requires n <= |Needs(LockSlots(cfg, draft), db)|
    requires LockRow(cfg).project in db && LockHeld(cfg, db)
    ensures LockSafe(cfg, db, Run(db, Needs(LockSlots(cfg, draft), db)[..n]))
    ensures !FocusAuthentic(cfg, draft) ==> Run(db, Needs(LockSlots(cfg, draft), db)[..n]) == db
  {
    if FocusAuthentic(cfg, draft) {
      var row := LockRow(cfg);
      assert row.project != row.foreign by {
        var i :| 0 <= i < |cfg.catalog| && cfg.catalog[i].id == row.project;
      }
      LockNeeds(cfg, draft, db);
      var f, l := Need(Own(row.project, row.post), db), Need(Relocate(row.foreign, row), db);
      var atFocus := FocusSettled(cfg, db);
      if n == 0 {
      } else if n == |f| {
        assert (f + l)[..n] == f;
      } else {
        assert (f + l)[..n] == f + l;
        RunConcat(db, f, l);
        Relocated(cfg, db, atFocus);
      }
    }
  }

  lemma FocusSettled(cfg: Config, db: Db) returns (after: Db)
    requires WellFormed(cfg) && LockRow(cfg).project != LockRow(cfg).foreign
    requires LockRow(cfg).project in db && LockHeld(cfg, db)
    ensures after == Run(db, Need(Own(LockRow(cfg).project, LockRow(cfg).post), db))
    ensures LockSafe(cfg, db, after) && after[LockRow(cfg).project].active == LockRow(cfg).post
    ensures after[LockRow(cfg).foreign] == db[LockRow(cfg).foreign]
  {
    var f := Need(Own(LockRow(cfg).project, LockRow(cfg).post), db);
    after := Run(db, f);
    if f != [] { RunOne(db, f[0]); }
  }

  lemma Relocated(cfg: Config, db: Db, atFocus: Db)
    requires WellFormed(cfg) && LockRow(cfg).project != LockRow(cfg).foreign
    requires LockSafe(cfg, db, atFocus) && atFocus[LockRow(cfg).project].active == LockRow(cfg).post
    requires atFocus[LockRow(cfg).foreign] == db[LockRow(cfg).foreign]
    ensures LockSafe(cfg, db, Run(atFocus, Need(Relocate(LockRow(cfg).foreign, LockRow(cfg)), db)))
  {
    var row := LockRow(cfg);
    var l := Need(Relocate(row.foreign, row), db);
    if l != [] {
      RunOne(atFocus, l[0]);
      LockPostHeld(row, db[row.foreign].active);
    }
  }

  // ---- the plan as read from an enumeration -----------------------------------------

  /** A write waiting to be issued, with the friendly names read for it. */
  datatype Pending = Pending(id: ActionId, names: string, keys: seq<Key>)

  function NeedIn(slot: Slot, found: Lookup): seq<Pending> {
    match found
    case One(t) =>
      if t.active == Goal(slot, t.active) then [] else [Pending(slot.id, t.names, Goal(slot, t.active))]
    case _ => []
  }

  function NeedsIn(slots: seq<Slot>, ts: seq<Tuple>): seq<Pending> {
    if slots == [] then []
    else
      var last := slots[|slots| - 1];
      NeedsIn(slots[..|slots| - 1], ts) + NeedIn(last, Find(ts, last.id))
  }

  function Events(pending: seq<Pending>): seq<Event> {
    seq(|pending|, i requires 0 <= i < |pending| => Assign(pending[i].id, pending[i].keys))
  }

  lemma EventsConcat(a: seq<Pending>, b: seq<Pending>)
    ensures Events(a + b) == Events(a) + Events(b)
  {
  }

  lemma {:induction false} NeedsInConcat(a: seq<Slot>, b: seq<Slot>, ts: seq<Tuple>)
    ensures NeedsIn(a + b, ts) == NeedsIn(a, ts) + NeedsIn(b, ts)
    decreases |b|
  {
    if b == [] {
      assert a + b == a;
    } else {
      assert (a + b)[..|a + b| - 1] == a + b[..|b| - 1];
      NeedsInConcat(a, b[..|b| - 1], ts);
    }
  }

  /** What is read off a faithful enumeration is what the state calls for. */
  lemma {:induction false} NeedsInFaithful(slots: seq<Slot>, ts: seq<Tuple>, db: Db)
    requires Enumerates(ts, db)
    ensures Events(NeedsIn(slots, ts)) == Needs(slots, db)
    decreases |slots|
  {
    if slots != [] {
      var front, last := slots[..|slots| - 1], slots[|slots| - 1];
      NeedsInFaithful(front, ts, db);
      assert slots == front + [last];
      NeedsConcat(front, [last], db);
      assert Needs([last], db) == Need(last, db) + Needs([last][1..], db);
      assert Find(ts, last.id) == if last.id in db then One(Tuple(last.id, db[last.id].names, db[last.id].active)) else Missing;
      EventsConcat(NeedsIn(front, ts), NeedIn(last, Find(ts, last.id)));
      assert Events(NeedIn(last, Find(ts, last.id))) == Need(last, db);
    }
  }

  ghost predicate DistinctPending(pending: seq<Pending>) {
    forall i, j :: 0 <= i < j < |pending| ==> pending[i].id != pending[j].id
  }

  lemma {:induction false} NeedsInIds(slots: seq<Slot>, ts: seq<Tuple>, p: Pending)
    requires p in NeedsIn(slots, ts)
    ensures exists s <- slots :: s.id == p.id && p in NeedIn(s, Find(ts, s.id))
    decreases |slots|
  {
    var front, last := slots[..|slots| - 1], slots[|slots| - 1];
    if p in NeedsIn(front, ts) {
      NeedsInIds(front, ts, p);
      var s :| s in front && s.id == p.id && p in NeedIn(s, Find(ts, s.id));
      assert s in slots;
    } else {
      assert last in slots;
    }
  }

  /** No action is waiting twice. */
  lemma {:induction false} NeedsInDistinct(slots: seq<Slot>, ts: seq<Tuple>)
    requires DistinctSlots(slots)
    ensures DistinctPending(NeedsIn(slots, ts)) && |NeedsIn(slots, ts)| <= |slots|
    decreases |slots|
  {
    if slots != [] {
      var front, last := slots[..|slots| - 1], slots[|slots| - 1];
      NeedsInDistinct(front, ts);
      forall p | p in NeedsIn(front, ts)
        ensures p.id != last.id
      {
        NeedsInIds(front, ts, p);
      }
    }
  }

  /** One slot per catalog row at most, so one write per row plus the lock. */
  lemma SlotsBounded(cfg: Config, draft: Draft)
    requires WellFormed(cfg)
    ensures |Slots(cfg, draft)| <= |cfg.catalog| + 1
  {
    RowSlotsBounded(cfg, draft, cfg.catalog);
  }

  lemma {:induction false} RowSlotsBounded(cfg: Config, draft: Draft, catalog: seq<CatalogEntry>)
    requires cfg.table != []
    ensures |AssignSlots(cfg, draft, catalog)| + |ClearSlots(draft, catalog)| <= |catalog|
    ensures FocusAuthentic(cfg, draft) && (exists e <- catalog :: e.id == LockRow(cfg).project) ==>
              |AssignSlots(cfg, draft, catalog)| + |ClearSlots(draft, catalog)| < |catalog|
    decreases |catalog|
  {
    if catalog != [] {
      var front, last := catalog[..|catalog| - 1], catalog[|catalog| - 1];
      assert catalog == front + [last];
      RowSlotsBounded(cfg, draft, front);
    }
  }

  // ---- what a plan writes is within bounds ----------------------------------------------

  /** Usable ids, posts within bounds, and one chord to relocate to. */
  ghost predicate SlotFits(s: Slot) {
    && IdValid(s.id) && (s.Own? ==> KeysValid(s.post))
    && (s.Relocate? ==> |s.row.target| == 1 && KeysValid(s.row.target))
  }

  ghost predicate SlotsFit(slots: seq<Slot>) {
    forall s <- slots :: SlotFits(s)
  }

  lemma PlanSlotsFit(cfg: Config, draft: Draft)
    requires WellFormed(cfg)
    ensures SlotsFit(Slots(cfg, draft)) && SlotsFit(AssignSlots(cfg, draft, cfg.catalog)) && SlotsFit(ClearSlots(draft, cfg.catalog))
    ensures SlotFits(Own(LockRow(cfg).project, LockRow(cfg).post)) && SlotFits(Relocate(LockRow(cfg).foreign, LockRow(cfg)))
  {
    AssignSlotIds(cfg, draft, cfg.catalog);
    ClearSlotIds(draft, cfg.catalog);
    LockSlotsFit(cfg);
    forall s | s in AssignSlots(cfg, draft, cfg.catalog)
      ensures SlotFits(s)
    {
      var e :| e in cfg.catalog && e.id == s.id && s.post == ExpectedPost(cfg, e);
      TablePostFits(cfg.table, e);
    }
  }

  lemma LockSlotsFit(cfg: Config)
    requires WellFormed(cfg)
    ensures SlotFits(Own(LockRow(cfg).project, LockRow(cfg).post)) && SlotFits(Relocate(LockRow(cfg).foreign, LockRow(cfg)))
  {
    assert cfg.table[0] in cfg.table;
    var i :| 0 <= i < |cfg.catalog| && cfg.catalog[i].id == LockRow(cfg).project;
    assert cfg.catalog[i] in cfg.catalog;
    assert forall k <- LockRow(cfg).target :: k in LockRow(cfg).target + LockRow(cfg).foreignPre;
  }

  lemma GoalFits(s: Slot, active: seq<Key>)
    requires SlotFits(s) && KeysValid(active)
    ensures KeysValid(Goal(s, active))
  {
    if s.Relocate? { LockPostFits(s.row, active); }
  }

  lemma {:induction false} NeedsFit(slots: seq<Slot>, db: Db)
    requires SlotsFit(slots) && Listable(db)
    ensures forall e <- Needs(slots, db) :: KeysValid(e.keys)
  {
    if slots != [] {
      if slots[0].id in db { GoalFits(slots[0], db[slots[0].id].active); }
      NeedsFit(slots[1..], db);
    }
  }

  /** Everything a plan writes is within bounds. */
  lemma PlanFits(cfg: Config, draft: Draft, db: Db)
    requires WellFormed(cfg) && Listable(db)
    ensures forall e <- Plan(cfg, draft, db) :: KeysValid(e.keys)
  {
    PlanSlotsFit(cfg, draft);
    NeedsFit(Slots(cfg, draft), db);
  }

  /** Writes within bounds leave a state that can be enumerated. */
  lemma {:induction false} RunListable(db: Db, done: seq<Event>)
    requires Listable(db) && forall e <- done :: KeysValid(e.keys)
    ensures Listable(Run(db, done))
    decreases |done|
  {
    if done != [] {
      var front, last := done[..|done| - 1], done[|done| - 1];
      assert done == front + [last];
      RunListable(db, front);
      var before := Run(db, front);
      assert Put(before, last.id, last.keys).Keys == before.Keys;
      assert |Put(before, last.id, last.keys).Keys| == |before.Keys|;
    }
  }

  predicate PendingFits(pending: seq<Pending>) {
    forall p <- pending :: Writable(p.id, p.names, p.keys)
  }

  lemma NeedInFits(s: Slot, ts: seq<Tuple>)
    requires SlotFits(s) && TuplesReadable(ts)
    ensures PendingFits(NeedIn(s, Find(ts, s.id)))
  {
    if Find(ts, s.id).One? {
      assert TupleValid(Find(ts, s.id).tuple);
      GoalFits(s, Find(ts, s.id).tuple.active);
    }
  }

  /** What is read off an enumeration can be sent. */
  lemma {:induction false} NeedsInFit(slots: seq<Slot>, ts: seq<Tuple>)
    requires SlotsFit(slots) && TuplesReadable(ts)
    ensures PendingFits(NeedsIn(slots, ts))
    decreases |slots|
  {
    if slots != [] {
      var front, last := slots[..|slots| - 1], slots[|slots| - 1];
      NeedsInFit(front, ts);
      NeedInFits(last, ts);
    }
  }
}
