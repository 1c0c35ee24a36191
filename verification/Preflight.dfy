// Everything one preflight hears, and the snapshot and Force preview that
// follow from it.

module Preflight {
  import opened Prelude
  import opened Shortcuts
  import opened ShortcutStore
  import opened HolderScan
  import opened HolderOrder
  import Sorting

  /** One preflight's readings: the daemon's owner, one enumeration, and one keyed answer per required key. */
  datatype Readings = Readings(owner: string, tuples: seq<Tuple>, replies: seq<Keyed>)

  /** focus and lock are resolved only while the lock is in scope. */
  datatype Snapshot = Snapshot(
    owner: string, focus: Option<Tuple>, lock: Option<Tuple>,
    images: seq<seq<Key>>, present: seq<bool>,
    rows: seq<ClearRow>, blocked: seq<Blocker>)

  /** What a Force confirmation binds. The images are the catalog rows in order, then the lock. */
  datatype Preview = Preview(
    forceable: bool, rows: seq<ClearRow>, owner: string,
    images: seq<seq<Key>>, present: seq<bool>,
    disabled: set<ActionId>, authentic: bool)

  const NotForceable := Preview(false, [], "", [], [], {}, false)

  function ActiveIn(l: Lookup): seq<Key> { if l.One? then l.tuple.active else [] }

  function Images(cfg: Config, ts: seq<Tuple>): seq<seq<Key>> {
    seq(|cfg.catalog|, i requires 0 <= i < |cfg.catalog| => ActiveIn(Find(ts, cfg.catalog[i].id)))
  }

  function Presence(cfg: Config, ts: seq<Tuple>): seq<bool> {
    seq(|cfg.catalog|, i requires 0 <= i < |cfg.catalog| => Find(ts, cfg.catalog[i].id).One?)
  }

  /** Duplicates are refused, only disabled rows may be absent, and key lists are bounded. */
  predicate RowReadable(draft: Draft, id: ActionId, l: Lookup) {
    match l
    case Many => false
    case Missing => id in draft.disabled
    case One(t) => KeysValid(t.active)
  }

  predicate CatalogReadable(cfg: Config, draft: Draft, ts: seq<Tuple>) {
    forall i | 0 <= i < |cfg.catalog| :: RowReadable(draft, cfg.catalog[i].id, Find(ts, cfg.catalog[i].id))
  }

  predicate Unrelated(cfg: Config, id: ActionId)
    requires cfg.table != []
  {
    !InCatalog(cfg, id) && id != LockRow(cfg).foreign
  }

  /** Friendly names of the unrelated actions; a later record overrides an earlier one. */
  function NamesOf(cfg: Config, ts: seq<Tuple>): Names
    requires cfg.table != []
  {
    if ts == [] then map[]
    else
      var last := ts[|ts| - 1];
      var before := NamesOf(cfg, ts[..|ts| - 1]);
      if Unrelated(cfg, last.id) then before[JoinedId(last.id) := last.names] else before
  }

  predicate UnrelatedBounded(cfg: Config, ts: seq<Tuple>)
    requires cfg.table != []
  {
    forall t <- ts :: Unrelated(cfg, t.id) ==> KeysValid(t.active)
  }

  predicate LockResolved(cfg: Config, ts: seq<Tuple>)
    requires cfg.table != []
  {
    var focus, lock := Find(ts, LockRow(cfg).project), Find(ts, LockRow(cfg).foreign);
    focus.One? && lock.One? && KeysValid(focus.tuple.active) && KeysValid(lock.tuple.active)
  }

  predicate Enumerable(cfg: Config, draft: Draft, ts: seq<Tuple>)
    requires cfg.table != []
  {
    && DraftKnown(cfg, draft)
    && |ts| <= MAX_TUPLES
    && (FocusAuthentic(cfg, draft) ==> LockResolved(cfg, ts))
    && CatalogReadable(cfg, draft, ts)
    && UnrelatedBounded(cfg, ts)
  }

  function RequiredFor(cfg: Config, draft: Draft, ts: seq<Tuple>): seq<Key>
    requires cfg.table != []
  {
    RequiredKeys(cfg, draft, KeepKeys(cfg, Images(cfg, ts), draft))
  }

  /** With the lock in scope there must be something to relocate, or the target already held. */
  predicate LockRelocatable(row: ConflictRow, active: seq<Key>) {
    HoldsAny(active, row.foreignPre) || HoldsAny(active, row.target)
  }

  function SnapshotOf(cfg: Config, draft: Draft, heard: Readings): Option<Snapshot>
    requires cfg.table != []
  {
    var ts := heard.tuples;
    var required := RequiredFor(cfg, draft, ts);
    if !Enumerable(cfg, draft, ts) || |heard.replies| != |required| then None
    else
      var scan := ScanKeys(cfg, NamesOf(cfg, ts), required, heard.replies);
      if scan.None? then None
      else if !FocusAuthentic(cfg, draft) then
        Some(Snapshot(heard.owner, None, None, Images(cfg, ts), Presence(cfg, ts), SortRows(scan.value.rows), scan.value.blocked))
      else
        var focus, lock := Find(ts, LockRow(cfg).project).tuple, Find(ts, LockRow(cfg).foreign).tuple;
        if !LockRelocatable(LockRow(cfg), lock.active) then None
        else Some(Snapshot(heard.owner, Some(focus), Some(lock), Images(cfg, ts), Presence(cfg, ts),
                           SortRows(scan.value.rows), scan.value.blocked))
  }

  function PreviewOf(draft: Draft, snap: Snapshot): Preview {
    if snap.blocked != [] || snap.rows == [] then NotForceable
    else Preview(true, snap.rows, snap.owner,
                 snap.images + [if snap.lock.Some? then snap.lock.value.active else []],
                 snap.present + [snap.lock.Some?],
                 draft.disabled, draft.authentic)
  }

  /** On a snapshot that succeeds the preview is forceable exactly when some listed outsider has a required
      key and none lacks one, and then its rows are the outsiders that have one. */
  lemma ForceableExactly(cfg: Config, draft: Draft, heard: Readings)
    requires cfg.table != [] && SnapshotOf(cfg, draft, heard).Some?
    ensures var required, preview := RequiredFor(cfg, draft, heard.tuples), PreviewOf(draft, SnapshotOf(cfg, draft, heard).value);
            && |heard.replies| == |required|
            && (preview.forceable <==> SomeToClear(cfg, required, heard.replies) && !SomeWithout(cfg, required, heard.replies))
            && (preview.forceable ==> RowsAreHolders(cfg, required, heard.replies, preview.rows))
  {
    hide SomeToClear, SomeWithout, ScanKeys, RequiredFor, SortRows;
    var required, names := RequiredFor(cfg, draft, heard.tuples), NamesOf(cfg, heard.tuples);
    ScanVerdict(cfg, names, required, heard.replies);
    SortRowsEmpty(ScanKeys(cfg, names, required, heard.replies).value.rows);
  }

  /** The first record an enumeration carries for an id: the status check looks no further. */
  function FirstActive(ts: seq<Tuple>, id: ActionId): seq<Key> {
    if ts == [] then []
    else if ts[0].id == id then ts[0].active
    else FirstActive(ts[1..], id)
  }

  function StatusRequired(cfg: Config, draft: Draft, ts: seq<Tuple>): seq<Key>
    requires cfg.table != []
  {
    var images := seq(|cfg.catalog|, i requires 0 <= i < |cfg.catalog| => FirstActive(ts, cfg.catalog[i].id));
    RequiredKeys(cfg, draft, KeepKeys(cfg, images, draft))
  }

  /** The status check over the replies it got. */
  function StatusOf(cfg: Config, draft: Draft, heard: Readings): Occupancy
    requires cfg.table != []
    requires |heard.replies| <= |StatusRequired(cfg, draft, heard.tuples)|
  {
    if !DraftKnown(cfg, draft) then Unavailable
    else KeysStatus(cfg, StatusRequired(cfg, draft, heard.tuples), heard.replies)
  }

  lemma {:induction false} FirstIsOnly(ts: seq<Tuple>, id: ActionId)
    requires !Find(ts, id).Many?
    ensures FirstActive(ts, id) == ActiveIn(Find(ts, id))
    decreases |ts|
  {
    if ts != [] {
      var front, last := ts[..|ts| - 1], ts[|ts| - 1];
      assert ts == front + [last];
      FirstIsOnly(front, id);
      FirstAppend(front, last, id);
    }
  }

  lemma {:induction false} FirstAppend(ts: seq<Tuple>, last: Tuple, id: ActionId)
    ensures Find(ts, id).Missing? ==>
              FirstActive(ts + [last], id) == if last.id == id then last.active else []
    ensures !Find(ts, id).Missing? ==> FirstActive(ts + [last], id) == FirstActive(ts, id)
    ensures Find(ts, id).Missing? ==> FirstActive(ts, id) == []
    decreases |ts|
  {
    if ts != [] {
      assert (ts + [last])[1..] == ts[1..] + [last];
      FirstAppend(ts[1..], last, id);
      FindHead(ts, id);
    }
  }

  lemma {:induction false} FindHead(ts: seq<Tuple>, id: ActionId)
    requires ts != []
    ensures Find(ts, id).Missing? <==> ts[0].id != id && Find(ts[1..], id).Missing?
    decreases |ts|
  {
    if |ts| > 1 {
      FindHead(ts[..|ts| - 1], id);
      assert ts[..|ts| - 1][1..] == ts[1..][..|ts| - 2];
    }
  }

  /** What a quiet daemon answers for each of the keys. */
  function Answers(keyed: Key -> Keyed, keys: seq<Key>): seq<Keyed> {
    seq(|keys|, i requires 0 <= i < |keys| => keyed(keys[i]))
  }

  /** The conversation behind keyed replies: for each key its holders, then its availability. */
  function Spoken(keys: seq<Key>, replies: seq<Keyed>): seq<Answer>
    requires |replies| <= |keys|
  {
    if replies == [] then []
    else
      var n := |replies| - 1;
      Spoken(keys, replies[..n]) + [HoldersAre(keys[n], replies[n].holders), AvailableIs(keys[n], replies[n].available)]
  }

  /** The readings are what the daemon said in between, the owner first, and nothing else was asked. */
  ghost predicate Overheard(cfg: Config, draft: Draft, heard: Readings,
                            told: seq<Answer>, nowTold: seq<Answer>, images: seq<seq<Tuple>>, nowImages: seq<seq<Tuple>>)
    requires cfg.table != []
  {
    && |heard.replies| == |RequiredFor(cfg, draft, heard.tuples)|
    && nowTold == told + [OwnerIs(heard.owner)] + Spoken(RequiredFor(cfg, draft, heard.tuples), heard.replies)
    && nowImages == images + [heard.tuples]
  }

  /** What a preflight hears when it hears everything as it is. */
  ghost predicate HeardOf(cfg: Config, draft: Draft, heard: Readings, db: Db, owner: string, keyed: Key -> Keyed)
    requires cfg.table != []
  {
    Enumerates(heard.tuples, db) && heard.owner == owner && heard.replies == Answers(keyed, RequiredFor(cfg, draft, heard.tuples))
  }

  /** Whenever the snapshot succeeds, the status check of the same readings is Clear exactly
      when the snapshot has no clear rows and no blockers, and it is never Unavailable. */
  lemma StatusMatchesSnapshot(cfg: Config, draft: Draft, heard: Readings)
    requires cfg.table != [] && SnapshotOf(cfg, draft, heard).Some?
    ensures StatusRequired(cfg, draft, heard.tuples) == RequiredFor(cfg, draft, heard.tuples)
    ensures var snap := SnapshotOf(cfg, draft, heard).value;
            && StatusOf(cfg, draft, heard) != Unavailable
            && (StatusOf(cfg, draft, heard) == Clear <==> snap.rows == [] && snap.blocked == [])
  {
    var required := RequiredFor(cfg, draft, heard.tuples);
    var names := NamesOf(cfg, heard.tuples);
    forall i | 0 <= i < |cfg.catalog|
      ensures FirstActive(heard.tuples, cfg.catalog[i].id) == Images(cfg, heard.tuples)[i]
    {
      assert RowReadable(draft, cfg.catalog[i].id, Find(heard.tuples, cfg.catalog[i].id));
      FirstIsOnly(heard.tuples, cfg.catalog[i].id);
    }
    assert seq(|cfg.catalog|, i requires 0 <= i < |cfg.catalog| => FirstActive(heard.tuples, cfg.catalog[i].id))
        == Images(cfg, heard.tuples);
    StatusAgreesWithScan(cfg, names, required, heard.replies);
    SortRowsEmpty(ScanKeys(cfg, names, required, heard.replies).value.rows);
  }

  lemma SortRowsEmpty(rows: seq<ClearRow>)
    ensures SortRows(rows) == [] <==> rows == []
    ensures forall row :: row in SortRows(rows) <==> row in rows
    ensures |SortRows(rows)| == |rows|
  {
    Sorting.SortPermutes(RowBefore, rows);
  }

  /** A snapshot's rows have distinct identities, and each splits its holder's active list
      into a nonempty set of required keys and the rest. */
  lemma SnapshotRowsSplit(cfg: Config, draft: Draft, heard: Readings)
    requires cfg.table != [] && SnapshotOf(cfg, draft, heard).Some?
    ensures var rows, required := SnapshotOf(cfg, draft, heard).value.rows, RequiredFor(cfg, draft, heard.tuples);
            && (forall i, j :: 0 <= i < j < |rows| ==> rows[i].id != rows[j].id)
            && (forall row <- rows :: row.removals != [] && row.removals == Conflicting(row.active, required) &&
                                      row.remainder == Remainder(row.active, required))
  {
    var required, names := RequiredFor(cfg, draft, heard.tuples), NamesOf(cfg, heard.tuples);
    var found := ScanKeys(cfg, names, required, heard.replies).value.rows;
    ScanIsExact(cfg, names, required, heard.replies);
    SortRowsEmpty(found);
    RowsNoDup(names, required, found);
    var rows := SortRows(found);
    Sorting.SortPermutes(RowBefore, found);
    PermutedNoDup(found, rows);
    forall i, j | 0 <= i < j < |rows|
      ensures rows[i].id != rows[j].id
    {
      assert rows[i] != rows[j] && rows[i] in found && rows[j] in found;
    }
  }

  /** Where no joined identity is contested, readings that differ in the order of holders only
      succeed alike, with the same rows and the same Force preview. */
  lemma SnapshotIgnoresReplyOrder(cfg: Config, draft: Draft, heard: Readings, other: Readings)
    requires cfg.table != []
    requires heard.owner == other.owner && heard.tuples == other.tuples && Reordered(heard.replies, other.replies)
    requires SnapshotOf(cfg, draft, heard).Some?
    requires Uncontested(cfg, RequiredFor(cfg, draft, heard.tuples), heard.replies)
    ensures SnapshotOf(cfg, draft, other).Some?
    ensures SnapshotOf(cfg, draft, heard).value.rows == SnapshotOf(cfg, draft, other).value.rows
    ensures PreviewOf(draft, SnapshotOf(cfg, draft, heard).value) == PreviewOf(draft, SnapshotOf(cfg, draft, other).value)
  {
    UncontestedCarries(cfg, NamesOf(cfg, heard.tuples), RequiredFor(cfg, draft, heard.tuples), heard.replies, other.replies);
  }

  /** Where identities do run together, the order shows. Of two holders to clear the first one listed
      is kept; and a holder with nothing to clear makes the snapshot fail when it comes second. */
  lemma CollidingIdentitiesDependOnOrder(ts: seq<Tuple>, draft: Draft)
    requires ts == [Tuple(ROW, "", [7])] && draft == Draft({}, false)
    ensures WellFormed(SMALL) && RequiredFor(SMALL, draft, ts) == [7]
    ensures var x, y := Holder(ActionId("a/b", "c"), [7], []), Holder(ActionId("a", "b/c"), [7], []);
            var one, two := Readings("", ts, [Keyed([x, y], false)]), Readings("", ts, [Keyed([y, x], false)]);
            && Reordered(one.replies, two.replies)
            && SnapshotOf(SMALL, draft, one).Some? && SnapshotOf(SMALL, draft, two).Some?
            && SnapshotOf(SMALL, draft, one).value.rows != SnapshotOf(SMALL, draft, two).value.rows
    ensures var x, y := Holder(ActionId("a/b", "c"), [9], []), Holder(ActionId("a", "b/c"), [7], []);
            var one, two := Readings("", ts, [Keyed([x, y], false)]), Readings("", ts, [Keyed([y, x], false)]);
            && Reordered(one.replies, two.replies)
            && SnapshotOf(SMALL, draft, one).Some? && SnapshotOf(SMALL, draft, two).None?
  {
    hide SnapshotOf, RequiredFor, WellFormed, Reordered;
    SmallReadable(ts, draft);
    var x, y, z := Holder(ActionId("a/b", "c"), [7], []), Holder(ActionId("a", "b/c"), [7], []), Holder(ActionId("a/b", "c"), [9], []);
    assert "a/b" + "/" + "c" == "a" + "/" + "b/c";
    TwoToClear(ts, draft, x, y);
    OneToClear(ts, draft, z, y);
  }

  lemma TwoToClear(ts: seq<Tuple>, draft: Draft, x: Holder, y: Holder)
    requires ts == [Tuple(ROW, "", [7])] && draft == Draft({}, false)
    requires HolderValid(x) && HolderValid(y) && JoinedId(x.id) == JoinedId(y.id) && x.id != y.id
    requires x.id.component !in {"p", "l"} && y.id.component !in {"p", "l"} && x.active == y.active == [7]
    ensures var one, two := Readings("", ts, [Keyed([x, y], false)]), Readings("", ts, [Keyed([y, x], false)]);
            && Reordered(one.replies, two.replies)
            && SnapshotOf(SMALL, draft, one).Some? && SnapshotOf(SMALL, draft, two).Some?
            && SnapshotOf(SMALL, draft, one).value.rows != SnapshotOf(SMALL, draft, two).value.rows
  {
    hide SnapshotOf, ScanKeys, SortRows, Reordered;
    PairReordered(x, y);
    FirstListedWins(x, y);
    SmallSnapshot(ts, draft, [x, y]);
    FirstListedWins(y, x);
    SmallSnapshot(ts, draft, [y, x]);
    SingleRowsDiffer(MakeRow(map[], [7], x), MakeRow(map[], [7], y));
  }

  lemma OneToClear(ts: seq<Tuple>, draft: Draft, x: Holder, y: Holder)
    requires ts == [Tuple(ROW, "", [7])] && draft == Draft({}, false)
    requires HolderValid(x) && HolderValid(y) && JoinedId(x.id) == JoinedId(y.id)
    requires x.id.component !in {"p", "l"} && y.id.component !in {"p", "l"} && x.active == [9] && y.active == [7]
    ensures var one, two := Readings("", ts, [Keyed([x, y], false)]), Readings("", ts, [Keyed([y, x], false)]);
            && Reordered(one.replies, two.replies)
            && SnapshotOf(SMALL, draft, one).Some? && SnapshotOf(SMALL, draft, two).None?
  {
    hide SnapshotOf, ScanKeys, SortRows, Reordered;
    PairReordered(x, y);
    SpoilerScan(x, y);
    SmallSnapshot(ts, draft, [x, y]);
    SmallSnapshot(ts, draft, [y, x]);
  }

  lemma PairReordered(x: Holder, y: Holder)
    ensures Reordered([Keyed([x, y], false)], [Keyed([y, x], false)])
  {
  }

  lemma SingleRowsDiffer(a: ClearRow, b: ClearRow)
    requires a != b
    ensures SortRows([a]) != SortRows([b])
  {
    SortRowsEmpty([a]);
    SortRowsEmpty([b]);
    assert a in [a] && a !in [b];
  }

  lemma SmallSnapshot(ts: seq<Tuple>, draft: Draft, holders: seq<Holder>)
    requires ts == [Tuple(ROW, "", [7])] && draft == Draft({}, false)
    ensures var snap, scan := SnapshotOf(SMALL, draft, Readings("", ts, [Keyed(holders, false)])),
                              ScanKeys(SMALL, map[], [7], [Keyed(holders, false)]);
            (snap.Some? <==> scan.Some?) && (scan.Some? ==> snap.value.rows == SortRows(scan.value.rows))
  {
    SmallReadable(ts, draft);
  }

  lemma SmallReadable(ts: seq<Tuple>, draft: Draft)
    requires ts == [Tuple(ROW, "", [7])] && draft == Draft({}, false)
    ensures WellFormed(SMALL) && Enumerable(SMALL, draft, ts) && NamesOf(SMALL, ts) == map[]
    ensures RequiredFor(SMALL, draft, ts) == [7] && !FocusAuthentic(SMALL, draft)
  {
    hide RequiredKeys, KeepKeys;
    assert SMALL.catalog[0].id == ROW && InCatalog(SMALL, ROW);
    assert ts[..0] == [] && Find(ts, ROW) == One(ts[0]);
    assert Images(SMALL, ts) == [[7]];
    SmallRequired(draft);
  }

  lemma SmallRequired(draft: Draft)
    requires draft == Draft({}, false)
    ensures RequiredKeys(SMALL, draft, KeepKeys(SMALL, [[7]], draft)) == [7]
  {
    assert LiveChords(SMALL, [[7]], draft, 1) == LiveChords(SMALL, [[7]], draft, 0) + [7];
    assert Filter((k: Key) => k != 0, [7]) == [7];
    assert [7][..0] == [] && Dedup([7]) == [7];
  }

  /** Two faithful enumerations of one state read alike. */
  lemma SameStateReadsAlike(cfg: Config, draft: Draft, db: Db, a: seq<Tuple>, b: seq<Tuple>)
    requires cfg.table != [] && Enumerates(a, db) && Enumerates(b, db)
    ensures RequiredFor(cfg, draft, a) == RequiredFor(cfg, draft, b)
    ensures StatusRequired(cfg, draft, a) == StatusRequired(cfg, draft, b)
    ensures StatusRequired(cfg, draft, a) == RequiredFor(cfg, draft, a)
  {
    forall i | 0 <= i < |cfg.catalog|
      ensures Images(cfg, a)[i] == Images(cfg, b)[i]
      ensures FirstActive(a, cfg.catalog[i].id) == Images(cfg, a)[i]
      ensures FirstActive(b, cfg.catalog[i].id) == Images(cfg, b)[i]
    {
      var id := cfg.catalog[i].id;
      assert Find(a, id) == Find(b, id) == if id in db then One(Tuple(id, db[id].names, db[id].active)) else Missing;
      FirstIsOnly(a, id);
      FirstIsOnly(b, id);
    }
    assert Images(cfg, a) == Images(cfg, b);
    assert seq(|cfg.catalog|, i requires 0 <= i < |cfg.catalog| => FirstActive(a, cfg.catalog[i].id)) == Images(cfg, a);
    assert seq(|cfg.catalog|, i requires 0 <= i < |cfg.catalog| => FirstActive(b, cfg.catalog[i].id)) == Images(cfg, b);
  }

  lemma {:induction false} StatusPrefix(cfg: Config, required: seq<Key>, replies: seq<Keyed>, n: nat)
    requires cfg.table != [] && n <= |replies| <= |required|
    requires KeysStatus(cfg, required, replies[..n]) != Clear
    ensures KeysStatus(cfg, required, replies) == KeysStatus(cfg, required, replies[..n])
    decreases |replies|
  {
    if n < |replies| {
      assert replies[..|replies| - 1][..n] == replies[..n];
      StatusPrefix(cfg, required, replies[..|replies| - 1], n);
    } else {
      assert replies[..n] == replies;
    }
  }

  /** On one undisturbed daemon state: if the snapshot succeeds then a status check that
      got its answers is Clear exactly when the snapshot found no rows and no blockers. */
  lemma QuietStatusAgrees(cfg: Config, draft: Draft, db: Db, keyed: Key -> Keyed, heard: Readings, other: Readings)
    requires cfg.table != []
    requires Enumerates(heard.tuples, db) && Enumerates(other.tuples, db)
    requires SnapshotOf(cfg, draft, heard).Some?
    requires heard.replies == Answers(keyed, RequiredFor(cfg, draft, heard.tuples))
    requires var required := StatusRequired(cfg, draft, other.tuples);
             && |other.replies| <= |required|
             && other.replies == Answers(keyed, required[..|other.replies|])
             && (StatusOf(cfg, draft, other) == Clear ==> |other.replies| == |required|)
    ensures var snap := SnapshotOf(cfg, draft, heard).value;
            StatusOf(cfg, draft, other) == Clear <==> snap.rows == [] && snap.blocked == []
  {
    SameStateReadsAlike(cfg, draft, db, heard.tuples, other.tuples);
    StatusMatchesSnapshot(cfg, draft, heard);
    var required, n := RequiredFor(cfg, draft, heard.tuples), |other.replies|;
    assert other.replies == heard.replies[..n];
    if KeysStatus(cfg, required, heard.replies[..n]) != Clear {
      StatusPrefix(cfg, required, heard.replies, n);
    } else {
      assert heard.replies[..n] == heard.replies;
    }
  }
}
