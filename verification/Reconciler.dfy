// The shortcut reconciler: preflight scan, ordered Apply, confirmed Force and
// Revert over an unreliable shared store.

module Reconciler {
  import opened Prelude
  import opened Shortcuts
  import opened ShortcutStore
  import opened HolderScan
  import opened Preflight
  import opened ApplyPlan
  import opened ForceRecord
  import opened ReconcilerFacts
  import opened ExactDaemon
  import opened ForceOutcome

  class ShortcutReconciler {
    const cfg: Config
    const store: Store
    const cleared: ClearedStore

    constructor (cfg: Config, store: Store, cleared: ClearedStore)
      ensures this.cfg == cfg && this.store == store && this.cleared == cleared
    {
      this.cfg, this.store, this.cleared := cfg, store, cleared;
    }

    // ---- preflight ------------------------------------------------------------

    method ReadCatalog(draft: Draft, ts: seq<Tuple>) returns (ok: bool, images: seq<seq<Key>>, present: seq<bool>)
      ensures ok <==> CatalogReadable(cfg, draft, ts)
      ensures ok ==> images == Images(cfg, ts) && present == Presence(cfg, ts)
    {
      images, present, ok := [], [], true;
      for i := 0 to |cfg.catalog|
        invariant |images| == |present| == i
        invariant forall j | 0 <= j < i ::
                    RowReadable(draft, cfg.catalog[j].id, Find(ts, cfg.catalog[j].id)) &&
                    images[j] == ActiveIn(Find(ts, cfg.catalog[j].id)) && present[j] == Find(ts, cfg.catalog[j].id).One?
      {
        var found := FindAllowlisted(ts, cfg.catalog[i].id);
        if !RowReadable(draft, cfg.catalog[i].id, found) {
          return false, images, present;
        }
        images := images + [ActiveIn(found)];
        present := present + [found.One?];
      }
    }

    method ReadUnrelated(ts: seq<Tuple>) returns (ok: bool, names: Names)
      requires cfg.table != []
      ensures ok <==> UnrelatedBounded(cfg, ts)
      ensures ok ==> names == NamesOf(cfg, ts)
    {
      names, ok := map[], true;
      for i := 0 to |ts|
        invariant forall j | 0 <= j < i :: Unrelated(cfg, ts[j].id) ==> KeysValid(ts[j].active)
        invariant names == NamesOf(cfg, ts[..i])
      {
        assert ts[..i + 1][..i] == ts[..i];
        if Unrelated(cfg, ts[i].id) {
          if !KeysValid(ts[i].active) {
            return false, names;
          }
          names := names[JoinedId(ts[i].id) := ts[i].names];
        }
      }
      assert ts[..|ts|] == ts;
    }

    /** One keyed reply folded into the rows and blockers found so far. */
    method ScanReply(names: Names, required: seq<Key>, key: Key, holders: seq<Holder>, start: Scan) returns (r: Option<Scan>)
      requires cfg.table != []
      ensures r == ScanHolders(cfg, names, required, key, holders, start)
    {
      var rows, blocked := start.rows, start.blocked;
      for i := 0 to |holders|
        invariant ScanHolders(cfg, names, required, key, holders[..i], start) == Some(Scan(rows, blocked))
      {
        assert holders[..i + 1][..i] == holders[..i];
        var holder := holders[i];
        if !HolderValid(holder) {
          ScanFails(names, required, key, holders, start, i + 1);
          return None;
        }
        if !Exempt(cfg, holder.id, key) {
          match FindRow(rows, JoinedId(holder.id)) {
            case None =>
              var row := MakeRow(names, required, holder);
              if row.removals == [] {
                blocked := blocked + [Blocker(holder.id, key)];
              } else {
                if |rows| + 1 > MAX_TUPLES {
                  ScanFails(names, required, key, holders, start, i + 1);
                  return None;
                }
                rows := rows + [row];
              }
            case Some(at) =>
              if rows[at].active != holder.active {
                ScanFails(names, required, key, holders, start, i + 1);
                return None;
              }
          }
        }
      }
      assert holders[..|holders|] == holders;
      r := Some(Scan(rows, blocked));
    }

    lemma {:induction false} ScanFails(names: Names, required: seq<Key>, key: Key, holders: seq<Holder>, start: Scan, n: nat)
      requires cfg.table != [] && n <= |holders|
      requires ScanHolders(cfg, names, required, key, holders[..n], start) == None
      ensures ScanHolders(cfg, names, required, key, holders, start) == None
      decreases |holders| - n
    {
      if n < |holders| {
        assert holders[..n + 1][..n] == holders[..n];
        ScanFails(names, required, key, holders, start, n + 1);
      } else {
        assert holders[..n] == holders;
      }
    }

    method ScanRequired(names: Names, required: seq<Key>) returns (r: Option<Scan>, ghost replies: seq<Keyed>)
      requires cfg.table != []
      modifies store`db, store`owner, store`keyed, store`told, store`probe
      ensures store.quiet ==> store.db == old(store.db) && store.owner == old(store.owner) && store.keyed == old(store.keyed)
      ensures |replies| <= |required|
      ensures r.Some? ==> |replies| == |required| && r == ScanKeys(cfg, names, required, replies)
      ensures old(store.told) <= store.told && (r.Some? ==> store.told == old(store.told) + Spoken(required, replies))
      ensures store.quiet && r.Some? ==> replies == Answers(store.Answering(), required)
      ensures store.Steady() ==> r == ScanKeys(cfg, names, required, Answers(store.Answering(), required))
    {
      hide ScanKeys, ScanKey, Spoken, Answers;
      var scan := NothingFound;
      replies := [];
      NothingAsked(cfg, names, required, store.Answering());
      ghost var start := store.told;
      for i := 0 to |required|
        invariant |replies| == i
        invariant ScanKeys(cfg, names, required, replies) == Some(scan)
        invariant store.told == start + Spoken(required, replies)
        invariant store.quiet ==> store.db == old(store.db) && store.owner == old(store.owner) && store.keyed == old(store.keyed)
        invariant store.quiet ==> replies == Answers(store.Answering(), required[..i])
      {
        ghost var reply;
        var next;
        next, reply := ScanRequiredKey(names, required, required[i], scan);
        if store.quiet {
          AnswersPrefix(cfg, names, required, store.Answering(), replies, i);
          AnswersStep(store.Answering(), required, replies);
        }
        if next.None? {
          return None, replies;
        }
        scan := next.value;
        ScanStep(cfg, names, required, replies, reply);
        replies := replies + [reply];
      }
      r := Some(scan);
      assert required[..|required|] == required;
    }

    /** One required key: its holders and its availability in two calls, then the fold. */
    method ScanRequiredKey(names: Names, required: seq<Key>, key: Key, scan: Scan) returns (r: Option<Scan>, ghost reply: Keyed)
      requires cfg.table != []
      modifies store`db, store`owner, store`keyed, store`told, store`probe
      ensures store.quiet ==> store.db == old(store.db) && store.owner == old(store.owner) && store.keyed == old(store.keyed)
      ensures r.Some? ==> r == ScanKey(cfg, names, required, key, reply, scan)
      ensures old(store.told) <= store.told
      ensures r.Some? ==> store.told == old(store.told) + [HoldersAre(key, reply.holders), AvailableIs(key, reply.available)]
      ensures store.quiet && r.Some? ==> reply == store.Answering()(key)
      ensures store.Steady() ==> r == ScanKey(cfg, names, required, key, store.Answering()(key), scan)
    {
      r, reply := None, Keyed([], false);
      if !KeyInRange(key) {
        return;
      }
      UnreadableFails(cfg, names, required, key, store.Answering()(key), scan);
      var holders := store.ShortcutsByKey(key);
      if holders.None? {
        return;
      }
      var available := store.ShortcutAvailable(key);
      if available.None? || |holders.value| > MAX_TUPLES {
        return;
      }
      reply := Keyed(holders.value, available.value);
      assert store.quiet ==> reply == store.Answering()(key);
      var next := ScanReply(names, required, key, holders.value, scan);
      if next.Some? && (holders.value == []) == available.value {
        r := next;
      }
    }

    /** The owner and one enumeration, with everything read off it; heard by itself is what was read
        even when the enumeration is refused. */
    method ReadState(draft: Draft) returns (r: Option<Reading>, ghost owner: string, ghost tuples: seq<Tuple>)
      requires cfg.table != [] && DraftKnown(cfg, draft)
      modifies store`db, store`owner, store`keyed, store`told, store`images
      ensures store.quiet ==> store.db == old(store.db) && store.owner == old(store.owner) && store.keyed == old(store.keyed)
      ensures old(store.images) <= store.images && old(store.told) <= store.told
      ensures r.Some? ==>
                && ReadRight(cfg, draft, r.value) && r.value.owner == owner && r.value.tuples == tuples
                && store.told == old(store.told) + [OwnerIs(owner)] && store.images == old(store.images) + [tuples]
      ensures r.Some? ==> TuplesReadable(tuples)
      ensures store.quiet && r.Some? ==> owner == store.owner && Enumerates(tuples, store.db) && Listable(store.db)
      ensures store.Steady() && Listable(store.db) ==>
                (r.Some? <==> Enumerable(cfg, draft, tuples)) && owner == store.owner && Enumerates(tuples, store.db)
    {
      r, owner, tuples := None, "", [];
      var settable := store.CheckSetterContract();
      if !settable {
        return;
      }
      var asked := store.CurrentOwner();
      if asked.None? {
        return;
      }
      owner := asked.value;
      var read := store.ReadAll();
      if read.None? {
        return;
      }
      tuples := read.value;
      r := ReadEnumeration(draft, asked.value, read.value);
    }

    method ReadEnumeration(draft: Draft, owner: string, ts: seq<Tuple>) returns (r: Option<Reading>)
      requires cfg.table != [] && DraftKnown(cfg, draft)
      ensures r.Some? <==> Enumerable(cfg, draft, ts)
      ensures r.Some? ==> ReadRight(cfg, draft, r.value) && r.value.owner == owner && r.value.tuples == ts
    {
      if |ts| > MAX_TUPLES {
        return None;
      }
      var focus := FindAllowlisted(ts, LockRow(cfg).project);
      var lock := FindAllowlisted(ts, LockRow(cfg).foreign);
      if FocusAuthentic(cfg, draft) &&
         (!focus.One? || !lock.One? || !KeysValid(focus.tuple.active) || !KeysValid(lock.tuple.active)) {
        return None;
      }
      var readable, images, present := ReadCatalog(draft, ts);
      if !readable {
        return None;
      }
      var bounded, names := ReadUnrelated(ts);
      if !bounded {
        return None;
      }
      var keep := KeepKeysForImages(cfg, images, draft);
      var required := EnabledRequiredKeys(cfg, draft, keep);
      r := Some(Reading(owner, ts, images, present, names, required));
    }

    method CollectHolderSnapshot(draft: Draft) returns (r: Option<Snapshot>, ghost heard: Readings)
      requires cfg.table != []
      modifies store`db, store`owner, store`keyed, store`told, store`images, store`probe
      ensures store.quiet ==> store.db == old(store.db) && store.owner == old(store.owner) && store.keyed == old(store.keyed)
      ensures old(store.images) <= store.images && old(store.told) <= store.told
      // The snapshot is the one the daemon's answers during this call amount to.
      ensures r.Some? ==> r == SnapshotOf(cfg, draft, heard)
      ensures r.Some? ==> Overheard(cfg, draft, heard, old(store.told), store.told, old(store.images), store.images)
      ensures r.Some? ==> TuplesReadable(heard.tuples)
      ensures store.quiet && r.Some? ==> HeardOf(cfg, draft, heard, store.db, store.owner, store.Answering()) && Listable(store.db)
      // When nothing interferes and nothing fails, the outcome is what the state calls for.
      ensures store.Steady() && DraftKnown(cfg, draft) && Listable(store.db) ==>
                r == SnapshotOf(cfg, draft, heard) && HeardOf(cfg, draft, heard, store.db, store.owner, store.Answering())
      ensures !DraftKnown(cfg, draft) ==> r.None?
    {
      hide SnapshotOf, HeardOf, Overheard, Enumerable, ReadRight, ScanKeys, Enumerates, RequiredFor, Answers, Assembled, DraftKnown;
      ghost var told, images := store.told, store.images;
      heard := Readings("", [], []);
      r := None;
      if !DraftKnown(cfg, draft) {
        return;
      }
      var read;
      ghost var owner, tuples;
      read, owner, tuples := ReadState(draft);
      heard := Readings(owner, tuples, Answers(store.Answering(), RequiredFor(cfg, draft, tuples)));
      if store.Steady() && Listable(store.db) {
        HeardAs(cfg, draft, heard, store.db, store.Answering());
      }
      if read.None? {
        if store.Steady() && Listable(store.db) {
          NotEnumerable(cfg, draft, heard);
        }
        return;
      }
      ghost var replies;
      r, replies := ScanReading(draft, read.value);
      if r.Some? {
        heard := Readings(owner, tuples, replies);
        OverheardNow(cfg, draft, heard, read.value, told, images);
        if store.quiet {
          HeardAs(cfg, draft, heard, store.db, store.Answering());
        }
      }
    }

    /** The keyed scan of a reading, and the snapshot the two amount to. */
    method ScanReading(draft: Draft, read: Reading) returns (r: Option<Snapshot>, ghost replies: seq<Keyed>)
      requires cfg.table != [] && ReadRight(cfg, draft, read)
      modifies store`db, store`owner, store`keyed, store`told, store`probe
      ensures store.quiet ==> store.db == old(store.db) && store.owner == old(store.owner) && store.keyed == old(store.keyed)
      ensures old(store.told) <= store.told
      ensures r.Some? ==>
                && |replies| == |read.required| && store.told == old(store.told) + Spoken(read.required, replies)
                && r == SnapshotOf(cfg, draft, Readings(read.owner, read.tuples, replies))
      ensures store.quiet && r.Some? ==> replies == Answers(store.Answering(), read.required)
      ensures store.Steady() ==> r == SnapshotOf(cfg, draft, Readings(read.owner, read.tuples, Answers(store.Answering(), read.required)))
    {
      hide SnapshotOf, ScanKeys;
      var scan;
      scan, replies := ScanRequired(read.names, read.required);
      if store.Steady() {
        AssembledIs(cfg, draft, read, Answers(store.Answering(), read.required));
      }
      r := None;
      if scan.Some? {
        AssembledIs(cfg, draft, read, replies);
        r := Assembled(cfg, draft, read, scan.value);
      }
    }

    /** The keyed occupancy gate shown as status: same replies, first problem wins. */
    method CheckKeyedForeignOccupancy(draft: Draft) returns (r: Occupancy, ghost heard: Readings)
      requires cfg.table != []
      modifies store`db, store`owner, store`keyed, store`told, store`images, store`probe
      ensures store.quiet ==> store.db == old(store.db) && store.owner == old(store.owner) && store.keyed == old(store.keyed)
      ensures (exists id <- draft.disabled :: forall entry <- cfg.catalog :: entry.id != id) ==> r == Unavailable
      ensures var required := StatusRequired(cfg, draft, heard.tuples);
              && |heard.replies| <= |required|
              && (r != Unavailable ==>
                    // The readings are what the daemon answered during this call, and nothing else was asked.
                    && r == StatusOf(cfg, draft, heard)
                    && store.told == old(store.told) + Spoken(required, heard.replies)
                    && store.images == old(store.images) + [heard.tuples])
              && (r == Clear ==> |heard.replies| == |required|)
              && (store.quiet && r != Unavailable ==>
                    Enumerates(heard.tuples, store.db) && heard.replies == Answers(store.Answering(), required[..|heard.replies|]))
              // When nothing interferes and nothing fails, it is the status of all the answers there are.
              && (store.Steady() && DraftKnown(cfg, draft) && Listable(store.db) && AllReadable(store.Answering(), required) ==>
                    Enumerates(heard.tuples, store.db) && r == KeysStatus(cfg, required, Answers(store.Answering(), required)))
    {
      heard := Readings("", [], []);
      r := Unavailable;
      if !DraftKnown(cfg, draft) {
        return;
      }
      var read := store.ReadAll();
      if read.None? {
        return;
      }
      var images := FirstImages(read.value);
      var keep := KeepKeysForImages(cfg, images, draft);
      var required := EnabledRequiredKeys(cfg, draft, keep);
      var status, replies := KeysOccupancy(required);
      r := status;
      heard := Readings("", read.value, replies);
    }

    method FirstImages(ts: seq<Tuple>) returns (images: seq<seq<Key>>)
      ensures images == seq(|cfg.catalog|, i requires 0 <= i < |cfg.catalog| => FirstActive(ts, cfg.catalog[i].id))
    {
      images := [];
      for i := 0 to |cfg.catalog|
        invariant |images| == i
        invariant forall j | 0 <= j < i :: images[j] == FirstActive(ts, cfg.catalog[j].id)
      {
        images := images + [FirstActive(ts, cfg.catalog[i].id)];
      }
    }

    method KeysOccupancy(required: seq<Key>) returns (r: Occupancy, ghost replies: seq<Keyed>)
      requires cfg.table != []
      modifies store`db, store`owner, store`keyed, store`told, store`probe
      ensures store.quiet ==> store.db == old(store.db) && store.owner == old(store.owner) && store.keyed == old(store.keyed)
      ensures |replies| <= |required|
      ensures r != Unavailable ==> r == KeysStatus(cfg, required, replies)
      ensures r == Clear ==> |replies| == |required|
      ensures r != Unavailable ==> store.told == old(store.told) + Spoken(required, replies)
      ensures store.quiet ==> replies == Answers(store.Answering(), required[..|replies|])
      ensures store.Steady() && AllReadable(store.Answering(), required) ==> r == KeysStatus(cfg, required, Answers(store.Answering(), required))
    {
      hide KeysStatus, KeyStatus, Spoken, Answers, HoldersReadable;
      replies := [];
      NothingAsked(cfg, map[], required, store.Answering());
      ghost var start := store.told;
      for i := 0 to |required|
        invariant |replies| == i
        invariant KeysStatus(cfg, required, replies) == Clear
        invariant store.told == start + Spoken(required, replies)
        invariant store.quiet ==> store.db == old(store.db) && store.owner == old(store.owner) && store.keyed == old(store.keyed)
        invariant store.quiet ==> replies == Answers(store.Answering(), required[..i])
      {
        ghost var reply;
        if store.Steady() && AllReadable(store.Answering(), required) {
          StatusSoFar(cfg, required, store.Answering(), replies, i);
        }
        r, reply := KeyOccupancy(required[i]);
        if reply.Some? {
          if store.quiet {
            AnswersStep(store.Answering(), required, replies);
          }
          StatusStep(cfg, required, replies, reply.value);
          replies := replies + [reply.value];
        }
        if r != Clear {
          return;
        }
      }
      r := Clear;
      assert required[..|required|] == required;
    }

    /** One required key: its holders and its availability, in two calls. */
    method KeyOccupancy(key: Key) returns (r: Occupancy, ghost reply: Option<Keyed>)
      requires cfg.table != []
      modifies store`db, store`owner, store`keyed, store`told, store`probe
      ensures store.quiet ==> store.db == old(store.db) && store.owner == old(store.owner) && store.keyed == old(store.keyed)
      ensures r != Unavailable ==> reply.Some? && r == KeyStatus(cfg, key, reply.value)
      ensures reply.Some? ==> store.told == old(store.told) + [HoldersAre(key, reply.value.holders), AvailableIs(key, reply.value.available)]
      ensures store.quiet && reply.Some? ==> reply.value == store.Answering()(key)
      ensures store.Steady() && HoldersReadable(store.Answering()(key).holders) ==> r == KeyStatus(cfg, key, store.Answering()(key))
    {
      r, reply := Unavailable, None;
      if !KeyInRange(key) {
        return;
      }
      var holders := store.ShortcutsByKey(key);
      if holders.None? {
        return;
      }
      var available := store.ShortcutAvailable(key);
      if available.None? || |holders.value| > MAX_TUPLES {
        return;
      }
      var status := ReplyStatus(key, holders.value);
      reply := Some(Keyed(holders.value, available.value));
      r := if status == Clear && (holders.value == []) != available.value then Unavailable else status;
    }

    method ReplyStatus(key: Key, holders: seq<Holder>) returns (r: Occupancy)
      requires cfg.table != []
      ensures r == HoldersStatus(cfg, key, holders)
    {
      for i := 0 to |holders|
        invariant HoldersStatus(cfg, key, holders[..i]) == Clear
      {
        assert holders[..i + 1][..i] == holders[..i];
        if !HolderValid(holders[i]) {
          StatusSettled(key, holders, i + 1);
          return Unavailable;
        }
        if !Exempt(cfg, holders[i].id, key) {
          StatusSettled(key, holders, i + 1);
          return Conflict(key, holders[i].id);
        }
      }
      assert holders[..|holders|] == holders;
      r := Clear;
    }

    lemma {:induction false} StatusSettled(key: Key, holders: seq<Holder>, n: nat)
      requires cfg.table != [] && n <= |holders|
      requires HoldersStatus(cfg, key, holders[..n]) != Clear
      ensures HoldersStatus(cfg, key, holders) == HoldersStatus(cfg, key, holders[..n])
      decreases |holders| - n
    {
      if n < |holders| {
        assert holders[..n + 1][..n] == holders[..n];
        StatusSettled(key, holders, n + 1);
      } else {
        assert holders[..n] == holders;
      }
    }

    // ---- Apply ------------------------------------------------------------------

    /** Nothing written, confirmed, heard or read before is forgotten. */
    twostate predicate Grew()
      reads store`log, store`writes, store`told, store`images, store`marks
    {
      && old(store.log) <= store.log && old(store.writes) <= store.writes
      && old(store.told) <= store.told && old(store.images) <= store.images
      && old(store.marks) <= store.marks && |store.marks| - |old(store.marks)| == |store.log| - |old(store.log)|
    }

    /** Each write so far went out after an owner answer of its own, the last one heard, that named this owner. */
    twostate predicate Asked(owner: string)
      reads store`told, store`marks
    {
      old(store.marks) <= store.marks && Pinned(store.told, |old(store.told)|, store.marks[|old(store.marks)|..], owner)
    }

    /** No more writes were confirmed than reached the daemon, and on success no fewer. */
    twostate predicate Counted(ok: bool)
      reads store`writes, store`log, store`marks
    {
      && store.writes - old(store.writes) <= |store.log| - |old(store.log)|
      && (ok ==> store.writes - old(store.writes) == |store.log| - |old(store.log)|)
    }

    /** The daemon client has that many writes left. */
    predicate Room(n: nat)
      reads store`writes
    {
      store.writes + n <= MAX_WRITES
    }

    method CheckOwner(owner: string) returns (same: bool)
      modifies store`db, store`owner, store`keyed, store`told
      ensures old(store.told) <= store.told && (same ==> store.told == old(store.told) + [OwnerIs(owner)])
      ensures store.quiet ==> store.db == old(store.db) && store.owner == old(store.owner)
      ensures store.Steady() ==> same == (owner == store.owner)
    {
      var live := store.CurrentOwner();
      same := live == Some(owner);
    }

    /** Each write so far is one that the draft asks for on what was read meanwhile. */
    twostate predicate Shown(draft: Draft)
      requires cfg.table != []
      reads store`log, store`images
    {
      && old(store.log) <= store.log && old(store.images) <= store.images
      && ShownWrites(cfg, draft, store.log[|old(store.log)|..], store.images[|old(store.images)|..])
    }

    /** The last thing heard is that this owner still answers. */
    ghost predicate StillOwns(owner: string)
      reads store`told
    {
      store.told != [] && store.told[|store.told| - 1] == OwnerIs(owner)
    }

    /** One owner-pinned, confirmed write. */
    method WriteOne(owner: string, p: Pending) returns (ok: bool)
      modifies store`db, store`owner, store`keyed, store`told, store`writes, store`log, store`marks
      ensures Grew() && Counted(ok)
      ensures Asked(owner)
      ensures store.log == old(store.log) || store.log == old(store.log) + [Assign(p.id, p.keys)]
      ensures ok ==> store.log == old(store.log) + [Assign(p.id, p.keys)] && StillOwns(owner)
      ensures store.quiet ==> store.owner == old(store.owner)
      ensures store.Steady() && owner == store.owner && Writable(p.id, p.names, p.keys) && old(Room(1)) ==> ok
      ensures store.quiet ==> store.db == if store.log == old(store.log) then old(store.db) else Put(old(store.db), p.id, p.keys)
    {
      ok := CheckOwner(owner);
      if ok {
        ghost var asked := store.told;
        var confirmed := store.WriteKeys(p.id, p.names, p.keys);
        PinnedNow(owner, old(store.told), old(store.marks), asked, store.told, store.marks);
        if confirmed != Some(p.keys) {
          return false;
        }
        ok := CheckOwner(owner);
        PinnedNow(owner, old(store.told), old(store.marks), asked, store.told, store.marks);
      }
    }

    /** The pending writes in order, stopping at the first failure. */
    method WriteAll(owner: string, pending: seq<Pending>) returns (ok: bool)
      modifies store`db, store`owner, store`keyed, store`told, store`writes, store`log, store`marks
      ensures Grew() && Counted(ok)
      ensures Asked(owner)
      ensures var done := store.log[|old(store.log)|..];
              && done <= Events(pending)
              && (ok ==> done == Events(pending))
              && (store.quiet ==> store.db == Run(old(store.db), done))
      ensures store.quiet ==> store.owner == old(store.owner)
      ensures store.Steady() && owner == store.owner && PendingFits(pending) && old(Room(|pending|)) ==> ok
    {
      ghost var start, db := store.log, store.db;
      assert start + [] == start;
      ghost var done: seq<Event> := [];
      for i := 0 to |pending|
        invariant done == Events(pending[..i])
        invariant store.log == start + done && Grew() && Asked(owner)
        invariant store.writes == old(store.writes) + i
        invariant store.quiet ==> store.db == Run(db, done) && store.owner == old(store.owner)
      {
        ghost var e := Assign(pending[i].id, pending[i].keys);
        assert Events(pending[..i + 1]) == done + [e];
        assert (done + [e])[..i] == done;
        ghost var told, marks := store.told, store.marks;
        ok := WriteOne(owner, pending[i]);
        PinnedThen(owner, |old(store.told)|, old(store.marks), told, marks, store.told, store.marks);
        if !ok {
          assert store.log[|start|..] == done || store.log == start + (done + [e]);
          return;
        }
        assert store.log == start + (done + [e]);
        done := done + [e];
      }
      assert pending[..|pending|] == pending;
      ok := true;
    }

    /** Phase 1: focus takes its post first. */
    method WriteFocus(snap: Snapshot) returns (ok: bool)
      requires cfg.table != []
      requires snap.focus.Some? && snap.focus.value.id == LockRow(cfg).project
      modifies store`db, store`owner, store`keyed, store`told, store`writes, store`log, store`marks
      ensures Grew() && Counted(ok)
      ensures Asked(snap.owner)
      ensures var done := store.log[|old(store.log)|..]; done == [] || done == [Assign(LockRow(cfg).project, LockRow(cfg).post)]
      ensures store.quiet ==> store.owner == old(store.owner)
      ensures store.Steady() && snap.owner == store.owner && Writable(LockRow(cfg).project, snap.focus.value.names, LockRow(cfg).post) ==>
                old(Room(|FocusNeed(cfg, FocusReading(snap))|)) ==> ok
      ensures FocusWritten(cfg, FocusReading(snap), store.quiet, old(store.db), store.db, store.log[|old(store.log)|..], ok)
    {
      var focus, post := snap.focus.value, LockRow(cfg).post;
      var pending := if focus.active == post then [] else [Pending(focus.id, focus.names, post)];
      ok := WriteAll(snap.owner, pending);
      assert Events(pending) == if focus.active == post then [] else [Assign(focus.id, post)];
    }

    /** Phase 2: the lock is relocated from a fresh read that shows focus still owning its post. */
    method RelocateLock(owner: string, ghost draft: Draft) returns (ok: bool)
      requires WellFormed(cfg) && FocusAuthentic(cfg, draft)
      modifies store`db, store`owner, store`keyed, store`told, store`images, store`writes, store`log, store`marks
      ensures Grew() && Counted(ok)
      ensures Asked(owner) && Shown(draft)
      ensures store.quiet ==> store.owner == old(store.owner)
      ensures store.Steady() && owner == store.owner && LockReady(cfg, old(store.db)) && Listable(old(store.db)) ==>
                old(Room(|Need(Relocate(LockRow(cfg).foreign, LockRow(cfg)), store.db)|)) ==> ok
      ensures LockRelocated(cfg, store.quiet, old(store.db), store.db, store.log[|old(store.log)|..], ok)
    {
      hide ShownWrites, Pinned, FocusAuthentic, LockPost, KeysValid;
      NonePinned(store.marks);
      var row := LockRow(cfg);
      ghost var start, seen := store.log, store.images;
      NoneShown(cfg, draft, start);
      var read := store.ReadAll();
      if read.None? {
        return false;
      }
      var focusGate := FindAllowlisted(read.value, row.project);
      var lockGate := FindAllowlisted(read.value, row.foreign);
      if !focusGate.One? || !lockGate.One? || focusGate.tuple.active != row.post {
        return false;
      }
      var post := LockPostFor(row, lockGate.tuple.active);
      var pending := if lockGate.tuple.active == post then [] else [Pending(row.foreign, lockGate.tuple.names, post)];
      LockSlotsFit(cfg);
      NeedInFits(Relocate(row.foreign, row), read.value);
      ghost var db := store.db;
      if store.quiet {
        assert focusGate ==
          if row.project in db then One(Tuple(row.project, db[row.project].names, db[row.project].active)) else Missing;
        assert lockGate ==
          if row.foreign in db then One(Tuple(row.foreign, db[row.foreign].names, db[row.foreign].active)) else Missing;
      }
      ok := WriteAll(owner, pending);
      assert Events(pending) == if lockGate.tuple.active == post then [] else [Assign(row.foreign, post)];
      LockWriteShown(cfg, draft, store.log[|start|..], read.value, store.images[|seen|..]);
    }

    /** Focus, then the lock. */
    method WriteFocusAndLock(snap: Snapshot, ghost draft: Draft) returns (ok: bool)
      requires WellFormed(cfg) && FocusAuthentic(cfg, draft)
      requires snap.focus.Some? && snap.focus.value.id == LockRow(cfg).project && LabelValid(snap.focus.value.names)
      modifies store`db, store`owner, store`keyed, store`told, store`images, store`writes, store`log, store`marks
      ensures Grew() && Counted(ok)
      ensures Asked(snap.owner) && Shown(draft)
      ensures store.quiet ==> store.owner == old(store.owner)
      ensures store.Steady() && snap.owner == store.owner && FocusIs(cfg, FocusReading(snap), old(store.db)) && LockRow(cfg).foreign in old(store.db) ==>
                Listable(old(store.db)) && old(Room(|LockNeedsOf(cfg, store.db)|)) ==> ok
      ensures LockWritten(cfg, FocusReading(snap), store.quiet, old(store.db), store.db, store.log[|old(store.log)|..], ok)
    {
      hide ShownWrites, Pinned, FocusWritten, LockRelocated, LockWritten, LockReady, FocusIs, FocusReading;
      ghost var start, db, seen := store.log, store.db, store.images;
      LockSlotsFit(cfg);
      FocusNeedCounts(cfg, FocusReading(snap), db);
      ok := WriteFocus(snap);
      FocusShown(cfg, draft, store.log[|start|..], []);
      NoneShown(cfg, draft, store.log);
      ghost var between, mid, focused, told, marks := store.log, store.db, ok, store.told, store.marks;
      if store.quiet && ok && FocusIs(cfg, FocusReading(snap), db) {
        FocusReady(cfg, FocusReading(snap), db, mid, between[|start|..]);
      }
      if ok {
        ok := RelocateLock(snap.owner, draft);
        PinnedThen(snap.owner, |old(store.told)|, old(store.marks), told, marks, store.told, store.marks);
        ShownThen(cfg, draft, start, between, store.log, seen, seen, store.images);
      }
      FocusThenLock(cfg, FocusReading(snap), store.quiet, db, mid, store.db, start, between, store.log, focused, ok);
    }

    /** One catalog row in one enumeration: an assignment, a clear, or nothing to do. */
    method ReadNeed(draft: Draft, entry: CatalogEntry, ts: seq<Tuple>) returns (ok: bool, need: seq<Pending>, clear: seq<Pending>)
      requires cfg.table != []
      ensures ok ==>
                && need == (if !draft.authentic || entry.id in draft.disabled || entry.id == LockRow(cfg).project then []
                            else NeedIn(Own(entry.id, ExpectedPost(cfg, entry)), Find(ts, entry.id)))
                && clear == (if entry.id in draft.disabled then NeedIn(Drop(entry.id), Find(ts, entry.id)) else [])
      ensures RowFound(draft, entry.id, Find(ts, entry.id)) ==> ok
    {
      need, clear, ok := [], [], true;
      if entry.id == LockRow(cfg).project && FocusAuthentic(cfg, draft) {
        return;
      }
      var found := FindAllowlisted(ts, entry.id);
      if found.Many? || (found.Missing? && entry.id !in draft.disabled) {
        return false, need, clear;
      }
      if found.Missing? {
        return;
      }
      if entry.id in draft.disabled {
        if found.tuple.active != [] {
          clear := [Pending(entry.id, found.tuple.names, [])];
        }
        return;
      }
      if draft.authentic {
        var post := ExpectedPost(cfg, entry);
        if found.tuple.active != post {
          need := [Pending(entry.id, found.tuple.names, post)];
        }
      }
    }

    /** Phases 3 and 4 as read from one enumeration: what to assign and what to clear. */
    method ReadNeeds(draft: Draft, ts: seq<Tuple>) returns (ok: bool, needs: seq<Pending>, clears: seq<Pending>)
      requires cfg.table != []
      ensures ok ==> needs == NeedsIn(AssignSlots(cfg, draft, cfg.catalog), ts)
      ensures ok ==> clears == NeedsIn(ClearSlots(draft, cfg.catalog), ts)
      ensures (forall i | 0 <= i < |cfg.catalog| :: RowFound(draft, cfg.catalog[i].id, Find(ts, cfg.catalog[i].id))) ==> ok
    {
      needs, clears, ok := [], [], true;
      for i := 0 to |cfg.catalog|
        invariant needs == NeedsIn(AssignSlots(cfg, draft, cfg.catalog[..i]), ts)
        invariant clears == NeedsIn(ClearSlots(draft, cfg.catalog[..i]), ts)
      {
        StepSlots(cfg, draft, i, ts);
        var readable, need, clear := ReadNeed(draft, cfg.catalog[i], ts);
        if !readable {
          return false, needs, clears;
        }
        needs, clears := needs + need, clears + clear;
      }
      assert cfg.catalog[..|cfg.catalog|] == cfg.catalog;
    }

    /** The assignments, then, when all of them went through, the clears. */
    method WriteInTurn(owner: string, needs: seq<Pending>, clears: seq<Pending>) returns (ok: bool)
      modifies store`db, store`owner, store`keyed, store`told, store`writes, store`log, store`marks
      ensures Grew() && Counted(ok)
      ensures Asked(owner)
      ensures store.quiet ==> store.owner == old(store.owner)
      ensures store.Steady() && owner == store.owner && PendingFits(needs) && PendingFits(clears) ==>
                old(Room(|needs| + |clears|)) ==> ok
      ensures var done, plan := store.log[|old(store.log)|..], Events(needs) + Events(clears);
              && done <= plan && (ok ==> done == plan)
              && (store.quiet ==> store.db == Run(old(store.db), done))
    {
      ghost var start, db := store.log, store.db;
      ok := WriteAll(owner, needs);
      ghost var between, filled, told, marks := store.log, ok, store.told, store.marks;
      if ok {
        ok := WriteAll(owner, clears);
        PinnedThen(owner, |old(store.told)|, old(store.marks), told, marks, store.told, store.marks);
      }
      InTurn(start, between, store.log, Events(needs), Events(clears), filled, ok);
      RunConcat(db, between[|start|..], store.log[|between|..]);
    }

    method WriteRows(draft: Draft, owner: string) returns (ok: bool)
      requires WellFormed(cfg)
      modifies store`db, store`owner, store`keyed, store`told, store`images, store`writes, store`log, store`marks
      ensures Grew() && Counted(ok)
      ensures Asked(owner) && Shown(draft)
      ensures store.quiet ==> store.owner == old(store.owner)
      ensures store.Steady() && owner == store.owner && RowsPresent(cfg, draft, old(store.db)) && Listable(old(store.db)) ==>
                old(Room(|Needs(RowSlots(cfg, draft), store.db)|)) ==> ok
      ensures RowsWritten(cfg, draft, store.quiet, old(store.db), store.db, store.log[|old(store.log)|..], ok)
    {
      hide Pinned, ShownWrites, PendingFits, RowsWritten, RowsPresent, Run;
      ghost var start, db, seen := store.log, store.db, store.images;
      NoneShown(cfg, draft, start);
      NonePinned(store.marks);
      assert start[|start|..] == [];
      NoRowsWritten(cfg, draft, store.quiet, db, db);
      var read := store.ReadAll();
      if read.None? {
        NoRowsWritten(cfg, draft, store.quiet, db, store.db);
        return false;
      }
      var readable, needs, clears := ReadNeeds(draft, read.value);
      if store.quiet && RowsPresent(cfg, draft, db) {
        PresentRowsFound(cfg, draft, db, read.value);
      }
      if !readable {
        NoRowsWritten(cfg, draft, store.quiet, db, store.db);
        return false;
      }
      RowsReadFit(cfg, draft, read.value, needs, clears);
      if store.quiet {
        RowsCounted(cfg, draft, read.value, db);
      }
      ok := WriteInTurn(owner, needs, clears);
      RowsShown(cfg, draft, read.value, store.log[|start|..], store.images[|seen|..]);
      RowsDone(cfg, draft, read.value, store.quiet, db, store.db, store.log[|start|..], ok);
    }

    /** The finish check over one final enumeration. */
    method VerifyFinal(draft: Draft, snap: Snapshot, final: seq<Tuple>) returns (ok: bool)
      requires cfg.table != [] && Fits(cfg, draft, snap)
      ensures ok <==> FinalImage(cfg, draft, snap.images, final)
      // Read off configuration and enumeration: disabled rows absent or empty, Authentic rows at the post of their
      // first conflict row or their canonical chord, kept rows as they were, the lock relocated.
      ensures ok <==> ShowsDraft(cfg, draft, snap.images, final)
    {
      FinalImageShows(cfg, draft, snap.images, final);
      ok := true;
      for i := 0 to |cfg.catalog|
        invariant ok ==> forall j | 0 <= j < i :: RowSettled(cfg, draft, cfg.catalog[j], snap.images[j], Find(final, cfg.catalog[j].id))
        invariant !ok ==> !FinalImage(cfg, draft, snap.images, final)
      {
        var entry := cfg.catalog[i];
        var found := FindAllowlisted(final, entry.id);
        if entry.id in draft.disabled {
          if found.Many? {
            return false;
          }
          if found.One? && found.tuple.active != [] {
            ok := false;
          }
        } else {
          if !found.One? {
            return false;
          }
          if draft.authentic {
            if found.tuple.active != ExpectedPost(cfg, entry) {
              ok := false;
            }
          } else if found.tuple.active != snap.images[i] {
            ok := false;
          }
        }
      }
      if ok && snap.lock.Some? {
        var lock := FindAllowlisted(final, LockRow(cfg).foreign);
        ok := LockSettled(LockRow(cfg), lock);
      }
    }

    /** The lock's phases, while the lock is in scope. */
    method LockPhases(draft: Draft, snap: Snapshot) returns (ok: bool)
      requires WellFormed(cfg) && Fits(cfg, draft, snap)
      modifies store`db, store`owner, store`keyed, store`told, store`images, store`writes, store`log, store`marks
      ensures Grew() && Counted(ok)
      ensures Asked(snap.owner) && Shown(draft)
      ensures store.quiet ==> store.owner == old(store.owner)
      ensures store.Steady() && snap.owner == store.owner && PhasesReady(cfg, draft, FocusReading(snap), old(store.db)) ==>
                old(Room(LockCount(cfg, draft, store.db))) ==> ok
      ensures if FocusAuthentic(cfg, draft) then
                LockWritten(cfg, FocusReading(snap), store.quiet, old(store.db), store.db, store.log[|old(store.log)|..], ok)
              else
                ok && store.log == old(store.log) && store.db == old(store.db)
    {
      hide ShownWrites, LockWritten, FocusIs;
      ok := true;
      NoneShown(cfg, draft, store.log);
      if snap.lock.Some? {
        ok := WriteFocusAndLock(snap, draft);
      }
    }

    /** The write phases after a clean preflight. */
    method WritePhases(draft: Draft, snap: Snapshot) returns (ok: bool)
      requires WellFormed(cfg) && Fits(cfg, draft, snap)
      modifies store`db, store`owner, store`keyed, store`told, store`images, store`writes, store`log, store`marks
      ensures Grew() && Counted(ok)
      ensures Asked(snap.owner) && Shown(draft)
      ensures store.quiet ==> store.owner == old(store.owner)
      ensures store.Steady() && snap.owner == store.owner && PhasesReady(cfg, draft, FocusReading(snap), old(store.db)) ==>
                old(Room(|Plan(cfg, draft, store.db)|)) ==> ok
      ensures PhasesWritten(cfg, draft, FocusReading(snap), store.quiet, old(store.db), store.db, store.log[|old(store.log)|..], ok)
    {
      hide ShownWrites, Pinned, Fits, LockWritten, RowsWritten, PhasesWritten, PhasesReady, RowsPresent, FocusReading;
      ghost var start, db := store.log, store.db;
      ok := LockPhases(draft, snap);
      ghost var between, mid, locked, told, marks, images := store.log, store.db, ok, store.told, store.marks, store.images;
      if store.quiet && PhasesReady(cfg, draft, FocusReading(snap), db) {
        StillPresent(cfg, draft, FocusReading(snap), db, mid, between[|start|..], locked);
      }
      assert locked ==> store.writes - old(store.writes) == |between[|start|..]|;
      if ok {
        ok := WriteRows(draft, snap.owner);
        ShownThen(cfg, draft, start, between, store.log, old(store.images), images, store.images);
        PinnedThen(snap.owner, |old(store.told)|, old(store.marks), told, marks, store.told, store.marks);
      }
      PhasesCompose(cfg, draft, FocusReading(snap), store.quiet, start, between, store.log, db, mid, store.db, locked, ok);
    }

    /** The finish: one final enumeration, the write bound, and the owner still the same. */
    method FinishApply(draft: Draft, snap: Snapshot, used: nat) returns (ok: bool)
      requires cfg.table != [] && Fits(cfg, draft, snap)
      modifies store`db, store`owner, store`keyed, store`told, store`images
      ensures old(store.images) <= store.images && old(store.told) <= store.told
      ensures ok ==> |store.images| > |old(store.images)| && FinalImage(cfg, draft, snap.images, store.images[|store.images| - 1])
      ensures ok ==> StillOwns(snap.owner)
      ensures store.quiet ==> store.db == old(store.db)
      ensures store.Steady() && Listable(store.db) && snap.owner == old(store.owner) && used <= |cfg.catalog| + 1 ==>
                |store.images| > |old(store.images)| && Enumerates(store.images[|store.images| - 1], store.db)
                && ok == FinalImage(cfg, draft, snap.images, store.images[|store.images| - 1])
    {
      var final := store.ReadAll();
      if final.None? {
        return false;
      }
      ok := VerifyFinal(draft, snap, final.value);
      if ok && used > |cfg.catalog| + 1 {
        ok := false;
      }
      if ok {
        ok := CheckOwner(snap.owner);
      }
    }

    /** The preflight gate: no holder to clear and no blocker. */
    method PreflightApply(draft: Draft) returns (ready: Option<Snapshot>, ghost heard: Readings)
      requires WellFormed(cfg)
      modifies store`db, store`owner, store`keyed, store`told, store`images, store`probe
      ensures store.quiet ==> store.db == old(store.db) && store.owner == old(store.owner) && store.keyed == old(store.keyed)
      ensures old(store.images) <= store.images && old(store.told) <= store.told
      ensures ready.Some? ==>
                && CleanPreflight(cfg, draft, heard) && Some(ready.value) == SnapshotOf(cfg, draft, heard)
                && Overheard(cfg, draft, heard, old(store.told), store.told, old(store.images), store.images)
                && TuplesReadable(heard.tuples)
      ensures store.quiet && ready.Some? ==> HeardOf(cfg, draft, heard, store.db, store.owner, store.Answering()) && Listable(store.db)
      ensures store.Steady() && DraftKnown(cfg, draft) && Listable(store.db) ==>
                (ready.Some? <==> CleanPreflight(cfg, draft, heard)) && HeardOf(cfg, draft, heard, store.db, store.owner, store.Answering())
      ensures !DraftKnown(cfg, draft) ==> ready.None?
    {
      hide SnapshotOf, Overheard, HeardOf;
      ready, heard := CollectHolderSnapshot(draft);
      if ready.Some? && (ready.value.rows != [] || ready.value.blocked != []) {
        ready := None;
      }
    }

    method WriteProjectKeys(draft: Draft) returns (r: Result, ghost heard: Readings)
      requires WellFormed(cfg)
      modifies store`db, store`owner, store`keyed, store`told, store`images, store`probe, store`writes, store`log, store`marks
      ensures Grew() && Counted(r.ok) && r.writes == store.writes - old(store.writes)
      // Each write is what the draft asks for on what was read in this call: the lock relocated with focus-right at its
      // post, a disabled row emptied, an Authentic one put to its post.
      ensures Shown(draft)
      // Each write follows an owner answer of its own that names the owner the preflight found, as does success.
      ensures Asked(heard.owner) && (r.ok ==> StillOwns(heard.owner))
      // Whatever other clients do: a bounded set of project writes, none of them on a refusal. When nobody
      // else writes, they are a prefix of the plan, the whole plan on success.
      ensures ApplyWritten(cfg, draft, store.quiet, old(store.db), store.db, store.log[|old(store.log)|..], r.ok)
      ensures r.stage == Preflighting ==> !r.ok && store.log == old(store.log) && store.writes == old(store.writes)
      // It gets to writing only after a clean preflight of what the daemon answered.
      ensures r.stage != Preflighting ==> Preflighted(cfg, draft, heard, old(store.told), store.told, old(store.images), store.images)
      ensures r.stage != Preflighting && store.quiet ==>
                HeardOf(cfg, draft, heard, old(store.db), old(store.owner), old(store.Answering())) && Listable(old(store.db)) && DraftKnown(cfg, draft)
      // Success is read off the final enumeration against the preflight image.
      ensures r.ok ==> AppliedImage(cfg, draft, heard, store.images[|old(store.images)|..])
      ensures r.ok ==> ShowsDraft(cfg, draft, Images(cfg, heard.tuples), store.images[|store.images| - 1])
      ensures r.ok && store.quiet ==> HoldsDraft(cfg, draft, old(store.db), store.db)
      // When nothing interferes and nothing fails, it succeeds exactly when the state can be enumerated, its
      // preflight is clean, and the client has writes enough left for the whole plan.
      ensures store.Steady() && DraftKnown(cfg, draft) && Listable(old(store.db)) ==>
                && HeardOf(cfg, draft, heard, old(store.db), old(store.owner), old(store.Answering()))
                && (r.ok <==> CleanPreflight(cfg, draft, heard) && old(Room(|Plan(cfg, draft, store.db)|)))
      ensures !DraftKnown(cfg, draft) || (store.quiet && !Listable(old(store.db))) ==> !r.ok
      // A draft that disables what the catalog lacks is refused before anything is written.
      ensures (exists id <- draft.disabled :: forall entry <- cfg.catalog :: entry.id != id) ==> r.stage == Preflighting
    {
      hide ShownWrites, ApplyWritten, Preflighted, AppliedImage, HeardOf, CleanPreflight, SnapshotOf, Plan, Listable, DraftKnown, ShowsDraft, HoldsDraft, Pinned;
      ghost var db, seen := store.db, store.images;
      KnownDraft(cfg, draft);
      r, heard := CheckAndWrite(draft);
      if r.ok {
        ApplyShown(cfg, draft, heard, store.quiet, db, store.db, store.log[|old(store.log)|..], seen, store.images);
      }
    }

    /** The preflight, and when it is clean the writes and the finish. */
    method CheckAndWrite(draft: Draft) returns (r: Result, ghost heard: Readings)
      requires WellFormed(cfg)
      modifies store`db, store`owner, store`keyed, store`told, store`images, store`probe, store`writes, store`log, store`marks
      ensures Grew() && Counted(r.ok) && r.writes == store.writes - old(store.writes)
      ensures Shown(draft)
      ensures Asked(heard.owner) && (r.ok ==> StillOwns(heard.owner))
      ensures ApplyWritten(cfg, draft, store.quiet, old(store.db), store.db, store.log[|old(store.log)|..], r.ok)
      ensures r.stage == Preflighting ==> !r.ok && store.log == old(store.log) && store.writes == old(store.writes)
      ensures r.stage != Preflighting ==> Preflighted(cfg, draft, heard, old(store.told), store.told, old(store.images), store.images)
      ensures r.stage != Preflighting && store.quiet ==>
                HeardOf(cfg, draft, heard, old(store.db), old(store.owner), old(store.Answering())) && Listable(old(store.db)) && DraftKnown(cfg, draft)
      ensures r.ok ==> AppliedImage(cfg, draft, heard, store.images[|old(store.images)|..])
      ensures store.Steady() && DraftKnown(cfg, draft) && Listable(old(store.db)) ==>
                && HeardOf(cfg, draft, heard, old(store.db), old(store.owner), old(store.Answering()))
                && (r.ok <==> CleanPreflight(cfg, draft, heard) && old(Room(|Plan(cfg, draft, store.db)|)))
      ensures !DraftKnown(cfg, draft) ==> r.stage == Preflighting
      ensures !DraftKnown(cfg, draft) || (store.quiet && !Listable(old(store.db))) ==> !r.ok
    {
      hide ShownWrites, Pinned, ApplyWritten, Preflighted, AppliedImage, HeardOf, CleanPreflight, Overheard, SnapshotOf, Plan, Listable, DraftKnown, TuplesReadable, FinalImage;
      NonePinned(store.marks);
      NoneShown(cfg, draft, store.log);
      ghost var start, db, told, seen := store.log, store.db, store.told, store.images;
      assert start[|start|..] == [];
      var ready;
      ready, heard := PreflightApply(draft);
      if ready.Some? {
        ghost var mid, nowTold, nowSeen, marks := store.db, store.told, store.images, store.marks;
        r := ApplyReady(draft, ready.value, heard);
        ShownThen(cfg, draft, start, start, store.log, seen, nowSeen, store.images);
        PinnedThen(heard.owner, |told|, old(store.marks), nowTold, marks, store.told, store.marks);
        PreflightWritesNothing(cfg, draft, store.quiet, db, mid, store.db, store.log[|start|..], r.ok);
        ImageApplied(cfg, draft, heard, told, nowTold, store.told, seen, nowSeen, store.images, r.ok);
      } else {
        NothingDone(cfg, draft, store.quiet, db, store.db);
        r := Result(false, Preflighting, 0);
      }
    }

    /** From a clean preflight to the finish. */
    method ApplyReady(draft: Draft, snap: Snapshot, ghost heard: Readings) returns (r: Result)
      requires WellFormed(cfg) && CleanPreflight(cfg, draft, heard) && Some(snap) == SnapshotOf(cfg, draft, heard)
      requires TuplesReadable(heard.tuples)
      requires store.quiet ==> HeardOf(cfg, draft, heard, store.db, store.owner, store.Answering()) && Listable(store.db)
      modifies store`db, store`owner, store`keyed, store`told, store`images, store`writes, store`log, store`marks
      ensures Grew() && Counted(r.ok) && r.stage != Preflighting && r.writes == store.writes - old(store.writes)
      ensures Shown(draft)
      ensures Asked(heard.owner) && (r.ok ==> StillOwns(heard.owner))
      ensures ApplyWritten(cfg, draft, store.quiet, old(store.db), store.db, store.log[|old(store.log)|..], r.ok)
      ensures r.ok ==> |store.images| > |old(store.images)| && FinalImage(cfg, draft, Images(cfg, heard.tuples), store.images[|store.images| - 1])
      ensures store.Steady() ==> (r.ok <==> old(Room(|Plan(cfg, draft, store.db)|)))
    {
      hide ShownWrites, ApplyWritten, PhasesWritten, FinalImage, CleanPreflight, SnapshotOf, HeardOf, Fits, FocusReading, PhasesReady,
           Enumerates, Images, Run, Plan;
      ghost var start, db := store.log, store.db;
      SnapshotFits(cfg, draft, heard);
      if store.quiet {
        CleanReady(cfg, draft, heard, db, store.owner, store.Answering());
      }
      r := WriteAndFinish(draft, snap);
      ReadyPhases(cfg, draft, FocusReading(snap), store.quiet, db, store.db, store.log[|start|..], r.ok);
      if store.Steady() && old(Room(|Plan(cfg, draft, db)|)) {
        CleanSettles(cfg, draft, heard, db, old(store.owner), old(store.Answering()), store.images[|store.images| - 1]);
      }
    }

    /** The writes after a clean preflight, and the finish. */
    method WriteAndFinish(draft: Draft, snap: Snapshot) returns (r: Result)
      requires WellFormed(cfg) && Fits(cfg, draft, snap)
      modifies store`db, store`owner, store`keyed, store`told, store`images, store`writes, store`log, store`marks
      ensures Grew() && Counted(r.ok) && r.stage != Preflighting && r.writes == store.writes - old(store.writes)
      ensures Shown(draft)
      ensures Asked(snap.owner) && (r.ok ==> StillOwns(snap.owner))
      ensures PhasesWritten(cfg, draft, FocusReading(snap), store.quiet, old(store.db), store.db, store.log[|old(store.log)|..], r.ok)
      ensures r.ok ==> |store.images| > |old(store.images)| && FinalImage(cfg, draft, snap.images, store.images[|store.images| - 1])
      ensures store.quiet && PhasesReady(cfg, draft, FocusReading(snap), old(store.db)) && r.ok ==>
                old(Room(|Plan(cfg, draft, store.db)|))
      ensures store.Steady() && snap.owner == old(store.owner) && PhasesReady(cfg, draft, FocusReading(snap), old(store.db)) ==>
                old(Room(|Plan(cfg, draft, store.db)|)) ==>
                |store.images| > |old(store.images)|
                && Enumerates(store.images[|store.images| - 1], Run(old(store.db), Plan(cfg, draft, old(store.db))))
                && r.ok == FinalImage(cfg, draft, snap.images, store.images[|store.images| - 1])
    {
      hide ShownWrites, Pinned, PhasesWritten, FinalImage, Fits, FocusReading, PhasesReady, Enumerates, Plan, Run, Listable;
      ghost var start, db := store.log, store.db;
      var startWrites := store.writes;
      var ok := WritePhases(draft, snap);
      ghost var done := store.log[|start|..];
      ghost var mid, through, told, marks, log, images := store.db, ok, store.told, store.marks, store.log, store.images;
      NoneShown(cfg, draft, log);
      PhasesBounded(cfg, draft, FocusReading(snap), store.quiet, db, mid, done, ok);
      if store.quiet && PhasesReady(cfg, draft, FocusReading(snap), db) {
        AfterPlanListable(cfg, draft, FocusReading(snap), db);
      }
      if ok {
        ok := FinishApply(draft, snap, store.writes - startWrites);
        ShownThen(cfg, draft, start, log, store.log, old(store.images), images, store.images);
        PinnedThen(snap.owner, |old(store.told)|, old(store.marks), told, marks, store.told, store.marks);
      }
      FinishWritesNothing(cfg, draft, FocusReading(snap), store.quiet, db, mid, store.db, done, through, ok);
      r := Result(ok, if ok then Done else Writing, store.writes - startWrites);
    }

    // ---- Force --------------------------------------------------------------------

    method BuildForcePreview(draft: Draft) returns (preview: Preview, ghost heard: Readings)
      requires cfg.table != []
      modifies store`db, store`owner, store`keyed, store`told, store`images, store`probe
      ensures store.quiet ==> store.db == old(store.db) && store.owner == old(store.owner) && store.keyed == old(store.keyed)
      ensures old(store.images) <= store.images && old(store.told) <= store.told
      // A forceable preview is the one that the daemon's answers during this call amount to.
      ensures preview.forceable ==> FreshPreview(cfg, draft, heard, preview)
      ensures preview.forceable ==> Overheard(cfg, draft, heard, old(store.told), store.told, old(store.images), store.images)
      ensures store.quiet && preview.forceable ==> HeardOf(cfg, draft, heard, store.db, store.owner, store.Answering()) && Listable(store.db)
      // When nothing interferes and nothing fails, it is the preview of the state.
      ensures store.Steady() && DraftKnown(cfg, draft) && Listable(store.db) ==>
                && HeardOf(cfg, draft, heard, store.db, store.owner, store.Answering())
                && (if SnapshotOf(cfg, draft, heard).Some? then FreshPreview(cfg, draft, heard, preview) else preview == NotForceable)
                && ForceableWhen(cfg, draft, heard, preview)
      // On a daemon that tells its actions apart it is forceable exactly when the rows are there and some action
      // holds a required key that it may not hold; its rows are then those actions.
      ensures store.Steady() && WellFormed(cfg) && Telling(draft) ==>
                && (preview.forceable <==> RowsThere(cfg, draft, store.db) && exists id :: Opposing(cfg, draft, store.db, id))
                && (preview.forceable ==> forall id :: (exists row <- preview.rows :: row.id == id) <==> Opposing(cfg, draft, store.db, id))
    {
      hide SnapshotOf, Overheard, HeardOf, PreviewOf, WellFormed, Telling, Opposing, RowsThere, ForceableWhen, Listable, DraftKnown;
      var snapshot;
      snapshot, heard := CollectHolderSnapshot(draft);
      preview := NotForceable;
      if snapshot.Some? {
        preview := PreviewOf(draft, snapshot.value);
      }
      PreviewForceable(cfg, draft, heard, preview);
      if store.Steady() && WellFormed(cfg) && Telling(draft) {
        TellingMeans(draft);
        ForceableIff(cfg, draft, heard, store.order, store.db, store.owner);
      }
    }

    /** A confirmation must name bounded, distinct holders whose removed and kept keys follow
        from their lists under the confirmed draft. */
    method CheckConfirmed(confirmed: Preview, draft: Draft) returns (ok: bool)
      requires cfg.table != []
      ensures ok <==> WellConfirmed(cfg, confirmed, draft)
    {
      ok := false;
      if !DraftKnown(cfg, draft) || !confirmed.forceable || confirmed.rows == [] || |confirmed.rows| > MAX_TUPLES
         || confirmed.disabled != draft.disabled || confirmed.authentic != draft.authentic {
        return;
      }
      var keep := KeepKeysForImages(cfg, confirmed.images, draft);
      var required := EnabledRequiredKeys(cfg, draft, keep);
      var seen: seq<string> := [];
      for i := 0 to |confirmed.rows|
        invariant |seen| == i && forall j | 0 <= j < i :: seen[j] == JoinedId(confirmed.rows[j].id)
        invariant forall j | 0 <= j < i :: RowInOrder(confirmed.rows[j], required)
        invariant forall j, k | 0 <= j < k < i :: JoinedId(confirmed.rows[j].id) != JoinedId(confirmed.rows[k].id)
      {
        var row := confirmed.rows[i];
        assert row in confirmed.rows;
        if !IdValid(row.id) || !LabelValid(row.names) || !KeysValid(row.active) || !KeysValid(row.removals)
           || !KeysValid(row.remainder) || row.active == [] || row.removals == [] || JoinedId(row.id) in seen {
          return;
        }
        seen := seen + [JoinedId(row.id)];
        var removals := ConflictingKeysIn(row.active, required);
        var remainder := RemainderAfterClearIn(row.active, required);
        if row.removals != removals || row.remainder != remainder {
          return;
        }
      }
      ok := true;
    }

    /** The durable union, written before any holder is touched. */
    method PersistUnion(rows: seq<ClearRow>) returns (ok: bool, touched: bool)
      modifies cleared
      ensures touched <==> cleared.touches != old(cleared.touches)
      ensures !touched ==> cleared.list == old(cleared.list) && !ok
      ensures forall id <- old(cleared.list) :: id in cleared.list
      ensures ok ==> forall row <- rows :: row.id in cleared.list
      // What is stored is the old list and after it, each once, the rows' actions that were not on it.
      ensures ok ==> Joined(old(cleared.list), cleared.list, rows)
      ensures cleared.reliable ==> ok == Storable(Union(old(cleared.list), rows))
    {
      hide Joined;
      var existing := cleared.Load();
      if existing.None? {
        return false, false;
      }
      var merged := existing.value;
      JoinedNone(merged);
      for i := 0 to |rows|
        invariant merged == Union(existing.value, rows[..i]) && Joined(existing.value, merged, rows[..i])
        invariant cleared.list == old(cleared.list) && cleared.touches == old(cleared.touches)
      {
        assert rows[..i + 1][..i] == rows[..i];
        JoinedStep(existing.value, merged, rows, i);
        if rows[i].id !in merged {
          merged := merged + [rows[i].id];
        }
      }
      assert rows[..|rows|] == rows;
      JoinedCovers(existing.value, merged, rows);
      ok := cleared.Save(merged);
      touched := true;
    }

    /** The owner still answers, and a fresh read of one of its keys lists the holder as confirmed. */
    method RereadHolder(owner: string, row: ClearRow, ghost required: seq<Key>) returns (same: bool)
      requires RowSound(row, required)
      modifies store`db, store`owner, store`keyed, store`told, store`probe
      ensures old(store.told) <= store.told
      ensures same ==>
                && |store.told| == |old(store.told)| + 2 && store.told[|old(store.told)|] == OwnerIs(owner) && !store.told[|old(store.told)| + 1].OwnerIs?
                && RereadNow(store.probe, row, |old(store.told)| + 1)
      ensures store.quiet ==> store.db == old(store.db) && store.owner == old(store.owner)
      ensures store.Steady() && store.exact && owner == old(store.owner) && HolderClearable(store.order, old(store.db), row) ==>
                same && Writable(row.id, row.names, row.remainder)
    {
      hide HolderClearable, HoldersReadable, Writable, RowSound, ExactAnswers, FirstListing;
      assert row.removals != [] by { RowRemoves(row, required); }
      if store.exact && HolderClearable(store.order, store.db, row) {
        ClearableListed(store.order, store.db, row, required);
      }
      same := CheckOwner(owner);
      if !same {
        return;
      }
      var live := store.ShortcutsByKey(row.removals[0]);
      if live.None? {
        return false;
      }
      var holder := FirstListing(live.value, row.id);
      same := holder.Some? && holder.value.active == row.active;
    }

    /** Clear one holder from a fresh read of it, unless it has drifted. */
    method ClearHolder(owner: string, row: ClearRow, ghost required: seq<Key>) returns (ok: bool)
      requires RowSound(row, required)
      requires Covered(store.log, cleared.list) && row.id in cleared.list
      modifies store`db, store`owner, store`keyed, store`told, store`probe, store`writes, store`log, store`marks
      ensures Grew()
      ensures Asked(owner)
      ensures OneClear(old(store.log), store.log, row, required, |old(store.told)|, |store.told|)
      ensures Counted(ok) && (ok ==> |store.log| == |old(store.log)| + 1)
      ensures Covered(store.log, cleared.list)
      ensures store.quiet ==> store.owner == old(store.owner)
      ensures store.quiet && ok ==> store.db == Put(old(store.db), row.id, row.remainder)
      // When nothing interferes and nothing fails, a current row is cleared while the client has a write left.
      ensures store.Steady() && store.exact && owner == old(store.owner) && HolderClearable(store.order, old(store.db), row) && old(Room(1)) ==> ok
    {
      hide Pinned, HolderClearable, Covered, OneClear, HoldersReadable, Writable, RowSound, Outstanding, ExactAnswers, FirstListing, RereadNow, HeldBy;
      NonePinned(store.marks);
      ghost var log, turn := store.log, |store.told|;
      ok := RereadHolder(owner, row, required);
      if !ok {
        NoClear(log, row, required, turn, |store.told|);
        return;
      }
      ghost var e := Foreign(row.id, row.remainder, store.probe,
                             if row.id in store.reported then Some(store.reported[row.id]) else None);
      ClearEvent(log, e, row, required, turn, |store.told|, cleared.list);
      ghost var asked := store.told;
      ok := store.SetForeignShortcutKeys(row.id, row.names, row.remainder);
      PinnedNow(owner, old(store.told), old(store.marks), asked, store.told, store.marks);
    }

    /** Clear every confirmed holder in turn, stopping at the first drift or failure. */
    method ClearHolders(owner: string, rows: seq<ClearRow>, ghost required: seq<Key>) returns (ok: bool)
      requires forall row <- rows :: RowSound(row, required)
      requires Covered(store.log, cleared.list) && forall row <- rows :: row.id in cleared.list
      modifies store`db, store`owner, store`keyed, store`told, store`probe, store`writes, store`log, store`marks
      ensures Grew() && Counted(ok)
      ensures Asked(owner)
      ensures ClearsInOrder(store.log[|old(store.log)|..], rows, required, |old(store.told)|)
      ensures ok ==> |store.log| == |old(store.log)| + |rows|
      ensures Covered(store.log, cleared.list)
      ensures store.quiet ==> store.owner == old(store.owner) && (ok ==> store.db == Cleared(old(store.db), rows))
      ensures store.Steady() && store.exact && owner == old(store.owner) && HoldersClearable(store.order, old(store.db), rows) && old(Room(|rows|)) ==> ok
    {
      hide OneClear, Covered, ClearsInOrder, OwnClear, RereadClear, RowSound, HolderClearable, HoldersClearable, Cleared;
      ghost var start, turn, db := store.log, |store.told|, store.db;
      assert ClearsSoFar(start, start, rows, required, turn, turn) by {
        NoClears(start, rows, required, turn);
      }
      NoneCleared(db, rows);
      for i := 0 to |rows|
        invariant Asked(owner) && Grew() && |store.log| == |start| + i && store.writes == old(store.writes) + i
        invariant ClearsSoFar(start, store.log, rows, required, turn, |store.told|)
        invariant Covered(store.log, cleared.list)
        invariant store.quiet ==> store.owner == old(store.owner) && store.db == Cleared(db, rows[..i])
      {
        ghost var before, mid, told, marks := store.log, |store.told|, store.told, store.marks;
        ClearedStep(store.order, db, rows, i);
        ok := ClearHolder(owner, rows[i], required);
        PinnedThen(owner, |old(store.told)|, old(store.marks), told, marks, store.told, store.marks);
        ClearsGrow(start, before, store.log, rows, required, turn, mid, |store.told|);
        if !ok {
          return;
        }
      }
      assert rows[..|rows|] == rows;
      ok := true;
    }

    /** The honest Keep check: kept rows still as confirmed. */
    method KeptRows(draft: Draft, images: seq<seq<Key>>, final: seq<Tuple>) returns (ok: bool)
      ensures ok <==> KeptAsConfirmed(cfg, draft, images, final)
    {
      var rows := if |cfg.catalog| < |images| then |cfg.catalog| else |images|;
      for i := 0 to rows
        invariant forall j | 0 <= j < i :: RowKept(draft, cfg.catalog[j].id, images[j], Find(final, cfg.catalog[j].id))
      {
        if cfg.catalog[i].id !in draft.disabled && !draft.authentic {
          var found := FindAllowlisted(final, cfg.catalog[i].id);
          if !found.One? || found.tuple.active != images[i] {
            return false;
          }
        }
      }
      ok := true;
    }

    method VerifyKept(draft: Draft, confirmed: Preview) returns (ok: bool)
      modifies store`db, store`owner, store`keyed, store`images
      ensures old(store.images) <= store.images
      ensures ok ==> |store.images| == |old(store.images)| + 1 &&
                     KeptAsConfirmed(cfg, draft, confirmed.images, store.images[|store.images| - 1])
      ensures store.Steady() && Listable(old(store.db)) && AlwaysKept(cfg, draft, confirmed.images, old(store.db)) ==> ok
    {
      hide KeptAsConfirmed;
      var read := store.ReadAll();
      ok := false;
      if read.Some? {
        ok := KeptRows(draft, confirmed.images, read.value);
      }
    }

    /** Revalidate the confirmation against a fresh preview: the whole image must match. */
    method Revalidate(confirmed: Preview, draft: Draft) returns (ok: bool, ghost latest: Readings)
      requires WellFormed(cfg)
      modifies store`db, store`owner, store`keyed, store`told, store`images, store`probe
      ensures old(store.images) <= store.images && old(store.told) <= store.told
      ensures ok ==> Confirmable(cfg, confirmed, draft)
      ensures ok ==> FreshPreview(cfg, draft, latest, confirmed)
      ensures ok ==> Overheard(cfg, draft, latest, old(store.told), store.told, old(store.images), store.images)
      ensures store.quiet ==> store.db == old(store.db) && store.owner == old(store.owner) && store.keyed == old(store.keyed)
      ensures store.quiet && ok ==>
                && HeardOf(cfg, draft, latest, old(store.db), old(store.owner), old(store.Answering())) && Listable(old(store.db))
                && ActualPreview(cfg, draft, confirmed, old(store.db), old(store.owner), old(store.Answering()))
      ensures ok ==> DraftKnown(cfg, draft) && confirmed.forceable
      ensures store.Steady() && old(Telling(draft)) ==>
                (ok <==> confirmed.forceable && ActualPreview(cfg, draft, confirmed, old(store.db), old(store.owner), old(store.Answering())))
    {
      hide Confirmable, FreshPreview, Overheard, HeardOf, SnapshotOf, ActualPreview, WellConfirmed, WellFormed, Telling, Listable, DraftKnown,
           ForceableWhen, Opposing, RowsThere;
      latest := Readings("", [], []);
      ghost var db, owner := store.db, store.owner;
      TableThere(cfg);
      ok := CheckConfirmed(confirmed, draft);
      if store.Steady() && Telling(draft) {
        TellingMeans(draft);
        ActualWellConfirmed(cfg, draft, store.order, db, owner, confirmed);
      }
      if ok {
        ConfirmedMeans(cfg, confirmed, draft);
        var current;
        current, latest := BuildForcePreview(draft);
        ok := current.forceable && current == confirmed;
        if store.Steady() && old(Telling(draft)) {
          OnlyPreview(cfg, draft, latest, store.order, db, owner, current, confirmed);
        }
        if store.quiet && ok {
          ActualNow(cfg, draft, latest, db, owner, store.Answering(), confirmed);
        }
      }
    }

    /** The daemon can be enumerated, answers exactly, tells its actions apart, and the draft is known. */
    ghost predicate Telling(draft: Draft)
      requires cfg.table != []
      reads store`db
    {
      store.exact && Listable(store.db) && Lists(store.order, store.db) && TellsApart(cfg, store.db) && DraftKnown(cfg, draft)
    }

    lemma TellingMeans(draft: Draft)
      requires cfg.table != [] && Telling(draft)
      ensures store.exact && Listable(store.db) && Lists(store.order, store.db) && TellsApart(cfg, store.db) && DraftKnown(cfg, draft)
      ensures store.Answering() == ExactAnswers(store.order, store.db)
    {
    }

    /** The project phases inside Force: they take nothing from a foreign action. */
    method ApplyAfterClears(draft: Draft) returns (ok: bool, ghost heard: Readings)
      requires WellFormed(cfg) && Covered(store.log, cleared.list)
      modifies store`db, store`owner, store`keyed, store`told, store`images, store`probe, store`writes, store`log, store`marks
      ensures Grew() && Counted(ok) && Covered(store.log, cleared.list)
      ensures Asked(heard.owner) && Shown(draft)
      ensures ProjectWrites(cfg, draft, store.log[|old(store.log)|..])
      ensures ok ==> AppliedOnce(cfg, draft, heard, store.images)
      ensures store.quiet && ok ==>
                store.db == Run(old(store.db), Plan(cfg, draft, old(store.db)))
                && |store.log| == |old(store.log)| + |Plan(cfg, draft, old(store.db))|
      ensures store.Steady() && store.exact && Lists(store.order, old(store.db)) ==>
                (ok <==> Applicable(cfg, draft, old(store.db)) && old(Room(|Plan(cfg, draft, store.db)|)))
    {
      hide ShownWrites, Pinned, Covered, ProjectWrites, AppliedImage, AppliedOnce, Preflighted, HeardOf, CleanPreflight, Applicable, Plan, Run, Lists, DraftKnown, Listable;
      ghost var mid, db, owner, seen, list := store.log, store.db, store.owner, store.images, cleared.list;
      var projects;
      ghost var room := Room(|Plan(cfg, draft, db)|);
      projects, heard := WriteProjectKeys(draft);
      CoveredThroughApply(cfg, draft, store.quiet, db, store.db, mid, store.log, projects.ok, list);
      if store.Steady() && store.exact && Lists(store.order, db) {
        OutcomeExact(cfg, draft, heard, store.order, db, owner, room, projects.ok);
      }
      ok := projects.ok;
      if ok {
        AppliedLast(cfg, draft, heard, seen, store.images);
      }
    }

    /** Every confirmed holder can be cleared, and an Apply can then begin. */
    ghost predicate Prepared(confirmed: Preview, draft: Draft)
      requires cfg.table != []
      reads store`db, store`owner
    {
      && store.exact && confirmed.owner == store.owner && HoldersClearable(store.order, store.db, confirmed.rows)
      && Applicable(cfg, draft, Cleared(store.db, confirmed.rows)) && Lists(store.order, Cleared(store.db, confirmed.rows))
    }

    /** The clears went out to the first owner, the writes after them to the second. */
    twostate predicate AskedTwice(clears: nat, first: string, second: string)
      reads store`told, store`marks
    {
      && old(store.marks) <= store.marks && clears <= |store.marks| - |old(store.marks)|
      && Pinned(store.told, |old(store.told)|, store.marks[|old(store.marks)|..][..clears], first)
      && Pinned(store.told, |old(store.told)|, store.marks[|old(store.marks)|..][clears..], second)
    }

    /** The writes after the clears are what the draft asks for on what was read meanwhile. */
    twostate predicate ShownAfter(clears: nat, draft: Draft)
      requires cfg.table != []
      reads store`log, store`images
    {
      && old(store.log) <= store.log && old(store.images) <= store.images && clears <= |store.log| - |old(store.log)|
      && ShownWrites(cfg, draft, store.log[|old(store.log)|..][clears..], store.images[|old(store.images)|..])
    }

    /** Clear the confirmed holders, then run the project phases. */
    method ClearAndApply(confirmed: Preview, draft: Draft) returns (ok: bool, ghost heard: Readings, ghost clears: nat)
      requires WellFormed(cfg) && Confirmable(cfg, confirmed, draft)
      requires Covered(store.log, cleared.list) && forall row <- confirmed.rows :: row.id in cleared.list
      modifies store`db, store`owner, store`keyed, store`told, store`images, store`probe, store`writes, store`log, store`marks
      ensures Grew() && Covered(store.log, cleared.list)
      ensures AskedTwice(clears, confirmed.owner, heard.owner) && ShownAfter(clears, draft)
      ensures ForcedWrites(cfg, draft, confirmed, |old(store.told)|, store.log[|old(store.log)|..], clears)
      ensures ok ==> clears == |confirmed.rows| && AppliedOnce(cfg, draft, heard, store.images)
      ensures store.quiet && ok ==> store.db == Forced(cfg, draft, old(store.db), confirmed.rows)
      ensures store.Steady() && old(Prepared(confirmed, draft)) ==> (ok <==> old(Room(ForcedCount(cfg, draft, store.db, confirmed.rows))))
    {
      hide ShownWrites, Pinned, Covered, ProjectWrites, ForcedWrites, ClearsInOrder, AppliedOnce, Applicable, Cleared, Plan, Run, Lists, HoldersClearable, RowSound, ForcedKeys;
      ghost var start, turn := store.log, |store.told|;
      ok := ClearHolders(confirmed.owner, confirmed.rows, ForcedKeys(cfg, draft, confirmed));
      ghost var mid, told, marks := store.log, store.told, store.marks;
      clears := |mid| - |start|;
      NoneShown(cfg, draft, mid);
      if ok {
        ok, heard := ApplyAfterClears(draft);
        PinnedApart(|old(store.told)|, old(store.marks), told, marks, store.told, store.marks, confirmed.owner, heard.owner);
        assert store.log[|start|..][clears..] == store.log[|mid|..];
        ForcedCompose(cfg, draft, confirmed, turn, start, mid, store.log);
      } else {
        assert mid[|start|..][clears..] == mid[|mid|..];
        heard := Readings("", [], []);
        ClearsOnly(cfg, draft, confirmed, turn, mid[|start|..]);
        NonePinned(marks);
        PinnedApart(|old(store.told)|, old(store.marks), told, marks, told, marks, confirmed.owner, heard.owner);
      }
    }

    /** Clear, apply, then check the kept rows on one more enumeration. */
    method ClearApplyVerify(confirmed: Preview, draft: Draft) returns (ok: bool, ghost heard: Readings, ghost clears: nat)
      requires WellFormed(cfg) && Confirmable(cfg, confirmed, draft)
      requires Covered(store.log, cleared.list) && forall row <- confirmed.rows :: row.id in cleared.list
      modifies store`db, store`owner, store`keyed, store`told, store`images, store`probe, store`writes, store`log, store`marks
      ensures Grew() && Covered(store.log, cleared.list)
      ensures AskedTwice(clears, confirmed.owner, heard.owner) && ShownAfter(clears, draft)
      ensures ForcedWrites(cfg, draft, confirmed, |old(store.told)|, store.log[|old(store.log)|..], clears)
      ensures ok ==> clears == |confirmed.rows| && ForcedImage(cfg, draft, confirmed, heard, store.images)
      ensures store.Steady() && old(Prepared(confirmed, draft)) && old(Keeping(confirmed, draft)) ==>
                (ok <==> old(Room(ForcedCount(cfg, draft, store.db, confirmed.rows))))
    {
      hide ShownWrites, Pinned, Covered, Confirmable, ForcedWrites, ForcedImage, AppliedOnce, Prepared, AlwaysKept, Listable, Forced, ForcedCount;
      ok, heard, clears := ClearAndApply(confirmed, draft);
      ghost var images := store.images;
      if ok {
        ok := VerifyAfterApply(confirmed, draft, heard);
      }
      ShownWider(cfg, draft, store.log[|old(store.log)|..][clears..], images[|old(store.images)|..], store.images[|old(store.images)|..]);
    }

    /** Afterwards the state can be enumerated, and shows the kept rows as confirmed. */
    ghost predicate Keeping(confirmed: Preview, draft: Draft)
      requires cfg.table != []
      reads store`db
    {
      var after := Forced(cfg, draft, store.db, confirmed.rows);
      Listable(after) && AlwaysKept(cfg, draft, confirmed.images, after)
    }

    method VerifyAfterApply(confirmed: Preview, draft: Draft, ghost heard: Readings) returns (ok: bool)
      requires cfg.table != [] && AppliedOnce(cfg, draft, heard, store.images)
      modifies store`db, store`owner, store`keyed, store`images
      ensures old(store.images) <= store.images
      ensures ok ==> ForcedImage(cfg, draft, confirmed, heard, store.images)
      ensures store.Steady() && Listable(old(store.db)) && AlwaysKept(cfg, draft, confirmed.images, old(store.db)) ==> ok
    {
      hide AppliedOnce, KeptAsConfirmed, ForcedImage, Listable, AlwaysKept;
      ghost var seen := store.images;
      ok := VerifyKept(draft, confirmed);
      if ok {
        ForcedThen(cfg, draft, confirmed, heard, seen, store.images);
      }
    }

    /** After the confirmation was revalidated: persist, then clear, apply and verify. */
    method ForceConfirmed(confirmed: Preview, draft: Draft)
      returns (ok: bool, stage: Stage, ghost heard: Readings, ghost clears: nat)
      requires WellFormed(cfg) && Confirmable(cfg, confirmed, draft)
      requires Covered(store.log, cleared.list)
      modifies store`db, store`owner, store`keyed, store`told, store`images, store`probe, store`writes, store`log, store`marks, cleared
      ensures Grew() && Covered(store.log, cleared.list)
      ensures AskedTwice(clears, confirmed.owner, heard.owner) && ShownAfter(clears, draft)
      ensures forall id <- old(cleared.list) :: id in cleared.list
      ensures cleared.touches == old(cleared.touches) ==> cleared.list == old(cleared.list)
      ensures stage in {Confirming, Persisting} ==> !ok && store.log == old(store.log)
      ensures stage == Confirming ==> cleared.touches == old(cleared.touches)
      ensures ForcedWrites(cfg, draft, confirmed, |old(store.told)|, store.log[|old(store.log)|..], clears)
      ensures ok ==> clears == |confirmed.rows| && ForcedImage(cfg, draft, confirmed, heard, store.images)
      ensures store.Steady() && cleared.reliable && old(Prepared(confirmed, draft)) && old(Keeping(confirmed, draft)) ==>
                (ok <==> Storable(Union(old(cleared.list), confirmed.rows)) && old(Room(ForcedCount(cfg, draft, store.db, confirmed.rows))))
    {
      hide ShownWrites, Covered, Confirmable, ForcedWrites, ForcedImage, Prepared, Keeping, Storable, Union, ForcedCount;
      ghost var start, list := store.log, cleared.list;
      var saved, touched := PersistUnion(confirmed.rows);
      assert store.log == start;
      CoveredGrows(start, list, cleared.list);
      if saved {
        stage := Writing;
        ok, heard, clears := ClearApplyVerify(confirmed, draft);
      } else {
        ok, stage, heard, clears := false, if touched then Persisting else Confirming, Readings("", [], []), 0;
        assert start[|start|..] == [];
        NoneShown(cfg, draft, start);
        NoForcedWrites(cfg, draft, confirmed, |store.told|);
      }
    }

    method ApplyForced(confirmed: Preview, draft: Draft)
      returns (r: Result, ghost latest: Readings, ghost heard: Readings, ghost clears: nat)
      requires WellFormed(cfg)
      requires Covered(store.log, cleared.list)
      modifies store`db, store`owner, store`keyed, store`told, store`images, store`probe, store`writes, store`log, store`marks, cleared
      // The durable list names everything taken and not given back, wherever the call stops.
      ensures Grew() && Covered(store.log, cleared.list)
      // The clears are pinned to the confirmed owner, the project writes to the one their own preflight found.
      ensures AskedTwice(clears, confirmed.owner, heard.owner) && ShownAfter(clears, draft)
      ensures forall id <- old(cleared.list) :: id in cleared.list
      // Neither store is touched unless the confirmation equals the preview that the first answers
      // of this call amount to; on a daemon nobody else writes, the preview of its state.
      ensures store.log != old(store.log) || cleared.touches != old(cleared.touches) ==>
                && Confirmable(cfg, confirmed, draft) && FreshPreview(cfg, draft, latest, confirmed)
                && OverheardFirst(cfg, draft, latest, old(store.told), store.told, old(store.images), store.images)
                && (store.quiet ==> ActualPreview(cfg, draft, confirmed, old(store.db), old(store.owner), old(store.Answering())))
      ensures cleared.touches == old(cleared.touches) ==> cleared.list == old(cleared.list)
      ensures r.stage in {Confirming, Persisting} ==> !r.ok && store.log == old(store.log)
      ensures r.stage == Confirming ==> cleared.touches == old(cleared.touches)
      // The writes: clears of confirmed holders, each from a read of its own made after that preview, then project rows.
      ensures ForcedWrites(cfg, draft, confirmed, |old(store.told)| + Answered(latest), store.log[|old(store.log)|..], clears)
      ensures r.ok ==> clears == |confirmed.rows| && ForcedImage(cfg, draft, confirmed, heard, store.images)
      ensures r.ok ==> ShowsForced(cfg, draft, confirmed, Images(cfg, heard.tuples), store.images)
      // On a daemon that nobody else writes and that tells its actions apart, when nothing fails: it succeeds exactly
      // when the confirmation is the forceable preview of the state, the durable list has room for the holders, and the
      // client has writes enough left for the clears and for the plan after them.
      ensures store.Steady() && cleared.reliable && old(Telling(draft)) ==>
                (r.ok <==>
                   && confirmed.forceable
                   && ActualPreview(cfg, draft, confirmed, old(store.db), old(store.owner), old(store.Answering()))
                   && Storable(Union(old(cleared.list), confirmed.rows))
                   && old(Room(ForcedCount(cfg, draft, store.db, confirmed.rows))))
      ensures !DraftKnown(cfg, draft) || (store.quiet && !Listable(old(store.db))) ==> !r.ok
    {
      hide ShownWrites, Covered, Confirmable, FreshPreview, Overheard, OverheardFirst, ActualPreview, ForcedWrites, ForcedImage, Answered, HeardOf, Telling,
           Prepared, Keeping, Storable, Union, ForcedCount, Listable, DraftKnown;
      var startWrites := store.writes;
      ghost var start, told, images, db, owner, keyed := store.log, store.told, store.images, store.db, store.owner, store.Answering();
      heard, clears := Readings("", [], []), 0;
      var valid;
      valid, latest := Revalidate(confirmed, draft);
      if !valid {
        assert store.log[|start|..] == [];
        NoneShown(cfg, draft, start);
        NoForcedWrites(cfg, draft, confirmed, |told| + Answered(latest));
        return Result(false, Confirming, 0), latest, heard, clears;
      }
      ghost var midTold, midImages := store.told, store.images;
      OverheardTakes(cfg, draft, latest, told, midTold, images, midImages);
      if store.quiet && old(Telling(draft)) {
        ForcePrepared(confirmed, draft, latest);
      }
      var ok, stage;
      ok, stage, heard, clears := ForceConfirmed(confirmed, draft);
      ShownWider(cfg, draft, store.log[|start|..][clears..], store.images[|midImages|..], store.images[|images|..]);
      OverheardThenMore(cfg, draft, latest, told, midTold, store.told, images, midImages, store.images);
      if ok {
        ForcedShows(cfg, draft, confirmed, heard, store.images);
      }
      r := Result(ok, if ok then Done else stage, store.writes - startWrites);
    }

    /** The preview of the state prepares the way. */
    lemma ForcePrepared(confirmed: Preview, draft: Draft, heard: Readings)
      requires WellFormed(cfg) && Telling(draft) && confirmed.forceable && FreshPreview(cfg, draft, heard, confirmed)
      requires HeardOf(cfg, draft, heard, store.db, store.owner, store.Answering())
      ensures Prepared(confirmed, draft) && Keeping(confirmed, draft)
    {
      hide WellFormed, FreshPreview, HeardOf, Listable, Lists, TellsApart, DraftKnown, Applicable, HoldersClearable, Forced, AlwaysKept;
      StatePrepared(cfg, draft, heard, store.order, store.db, store.owner, confirmed);
    }

    // ---- Revert -------------------------------------------------------------------

    /** Restore one listed action to the defaults the daemon reports for it. */
    method RestoreOne(owner: string, id: ActionId, ts: seq<Tuple>) returns (ok: bool)
      modifies store`db, store`owner, store`keyed, store`told, store`reported, store`writes, store`log, store`marks
      ensures Grew() && Counted(ok)
      ensures Asked(owner)
      ensures store.log == old(store.log) ||
              (|store.log| == |old(store.log)| + 1 && old(store.log) <= store.log &&
               store.log[|old(store.log)|].id == id && IsRestore(store.log[|old(store.log)|]))
      ensures ok ==> store.log != old(store.log)
      ensures store.quiet && store.log == old(store.log) ==> store.db == old(store.db)
      ensures store.quiet && store.log != old(store.log) && id in old(store.db) ==>
                store.db == Put(old(store.db), id, old(store.db)[id].defaults)
      ensures store.log != old(store.log) ==> Find(ts, id).One?
      ensures store.quiet ==> store.owner == old(store.owner)
      ensures store.Steady() && owner == old(store.owner) && Find(ts, id).One? && LabelValid(Find(ts, id).tuple.names) ==>
                id in old(store.db) && EntryValid(id, old(store.db)[id]) && old(Room(1)) ==> ok
    {
      var found := FindAllowlisted(ts, id);
      if !found.One? || !LabelValid(found.tuple.names) {
        return false;
      }
      var defaults := store.DefaultShortcutKeys(id, found.tuple.names);
      if defaults.None? {
        return false;
      }
      ok := CheckOwner(owner);
      if !ok {
        return;
      }
      ghost var asked := store.told;
      ok := store.SetForeignShortcutKeys(id, found.tuple.names, defaults.value);
      PinnedNow(owner, old(store.told), old(store.marks), asked, store.told, store.marks);
    }

    /** One target restored, or not reached. */
    method RestoreStep(owner: string, ts: seq<Tuple>, id: ActionId,
                       ghost start: seq<Event>, ghost db: Db, ghost targets: seq<ActionId>, ghost n: nat)
      returns (ok: bool, ghost m: nat)
      requires n < |targets| && targets[n] == id
      requires Returned(start, store.log, targets[..n])
      requires store.quiet ==> Enumerates(ts, db) && Listable(db) && store.db == Restored(db, targets[..n])
      modifies store`db, store`owner, store`keyed, store`told, store`reported, store`writes, store`log, store`marks
      ensures Asked(owner)
      ensures n <= m <= n + 1 && (ok ==> m == n + 1) && Grew() && Counted(ok)
      ensures |store.log| == |old(store.log)| + m - n
      ensures m > n ==> store.log[|old(store.log)|].id == id && IsRestore(store.log[|old(store.log)|])
      ensures Returned(start, store.log, targets[..m])
      ensures store.quiet ==> store.db == Restored(db, targets[..m]) && store.owner == old(store.owner) && (ok ==> id in db)
      ensures store.Steady() && owner == old(store.owner) && id in db && old(Room(1)) ==> ok
    {
      ghost var before, was := store.log, store.db;
      m := n;
      if store.quiet {
        RestoredListable(db, targets[..n], []);
        assert id in db ==> EntryValid(id, db[id]) && EntryValid(id, was[id]);
        assert Find(ts, id) == if id in db then One(Tuple(id, db[id].names, db[id].active)) else Missing;
      }
      ok := RestoreOne(owner, id, ts);
      if store.log != before {
        m := n + 1;
        ReturnedStep(start, before, store.log[|before|], targets, n);
        assert store.log == before + [store.log[|before|]];
        RestoredStep(db, targets[..n], id);
        assert targets[..m] == targets[..n] + [id];
      }
    }

    /** Restore the listed actions in order, skipping own ones, until something fails. */
    method RestoreListed(owner: string, list: seq<ActionId>, ts: seq<Tuple>) returns (ok: bool)
      requires store.quiet ==> Enumerates(ts, store.db) && Listable(store.db)
      modifies store`db, store`owner, store`keyed, store`told, store`reported, store`writes, store`log, store`marks
      ensures Grew() && Counted(ok)
      ensures Asked(owner)
      ensures RestoresInOrder(store.log[|old(store.log)|..], Targets(list))
      ensures var n := |store.log| - |old(store.log)|;
              && n <= |Targets(list)| && (ok ==> n == |Targets(list)|)
              && Returned(old(store.log), store.log, Targets(list)[..n])
              && (store.quiet ==> store.db == Restored(old(store.db), Targets(list)[..n]))
      ensures store.quiet && ok ==> Restorable(old(store.db), list)
      ensures store.Steady() && owner == old(store.owner) && Restorable(old(store.db), list) && old(Room(|Targets(list)|)) ==> ok
    {
      hide RestoresInOrder, Returned, Restored, Enumerates, Listable, IsRestore;
      ghost var start, db, targets, n := store.log, store.db, Targets(list), 0;
      NoneRestored(start, db, list);
      for i := 0 to |list|
        invariant Asked(owner) && Grew() && n == |store.log| - |start|
        invariant n <= |targets| && Targets(list[..i]) == targets[..n]
        invariant RestoresInOrder(store.log[|start|..], targets)
        invariant Returned(start, store.log, targets[..n])
        invariant store.quiet ==> store.db == Restored(db, targets[..n]) && store.owner == old(store.owner)
        invariant store.quiet ==> forall j | 0 <= j < i :: RowRestorable(db, list[j])
        invariant store.writes == old(store.writes) + n
      {
        assert Restorable(db, list) ==> RowRestorable(db, list[i]);
        if !IdValid(list[i]) {
          return false;
        }
        TargetsPrefix(list, i, n);
        if !ProjectOwned(list[i]) {
          ghost var before, told, marks := store.log, store.told, store.marks;
          ok, n := RestoreStep(owner, ts, list[i], start, db, targets, n);
          PinnedThen(owner, |old(store.told)|, old(store.marks), told, marks, store.told, store.marks);
          RestoresGrow(start, before, store.log, targets);
          if !ok {
            return;
          }
        }
      }
      assert list[..|list|] == list;
      ok := true;
    }

    /** Restore what is listed, then forget the list once everything on it was restored. */
    method RestoreAndForget(owner: string, ts: seq<Tuple>) returns (ok: bool)
      requires Covered(store.log, cleared.list)
      requires store.quiet ==> Enumerates(ts, store.db) && Listable(store.db)
      modifies store`db, store`owner, store`keyed, store`told, store`reported, store`writes, store`log, store`marks, cleared
      ensures Covered(store.log, cleared.list)
      ensures Reverted(store.quiet, old(store.log), store.log, old(store.db), store.db, old(cleared.list), cleared.list)
      ensures ok ==> cleared.list == []
      ensures cleared.reliable && !ok ==> cleared.list == old(cleared.list)
      ensures Grew()
      ensures Asked(owner)
      ensures store.Steady() && owner == old(store.owner) && cleared.reliable ==>
                (ok <==> Restorable(old(store.db), old(cleared.list)) && old(Room(|Targets(cleared.list)|)))
    {
      hide Pinned, RestoresInOrder, Restored, Restorable, Covered, Returned, Enumerates, Listable;
      ghost var start, db, list := store.log, store.db, cleared.list;
      ok := RestoreListed(owner, cleared.list, ts);
      ghost var done := store.log;
      CoveredShrinks(start, done, list, Targets(list)[..|done| - |start|]);
      if ok {
        assert Targets(list)[..|done| - |start|] == Targets(list);
        EverythingReturned(start, done, list);
        ok := cleared.Clear();
        assert store.log == done;
      }
    }

    /** A Revert of the list can go through when nothing interferes and nothing fails. */
    ghost predicate Revertible(list: seq<ActionId>)
      reads store`db, store`writes
    {
      list == [] || (Listable(store.db) && Restorable(store.db, list) && Room(|Targets(list)|))
    }

    /** Restore what is listed by a fresh enumeration. */
    method ReadAndRestore(owner: string) returns (ok: bool, stage: Stage)
      requires Covered(store.log, cleared.list)
      modifies store`db, store`owner, store`keyed, store`told, store`images, store`reported, store`writes, store`log, store`marks, cleared
      ensures Grew() && Asked(owner) && Covered(store.log, cleared.list)
      ensures Reverted(store.quiet, old(store.log), store.log, old(store.db), store.db, old(cleared.list), cleared.list)
      ensures ok ==> cleared.list == []
      ensures cleared.reliable && !ok ==> cleared.list == old(cleared.list)
      ensures store.quiet && store.log != old(store.log) ==> Listable(old(store.db))
      ensures store.Steady() && owner == old(store.owner) && cleared.reliable ==>
                (ok <==> Listable(old(store.db)) && Restorable(old(store.db), old(cleared.list)) && old(Room(|Targets(cleared.list)|)))
    {
      hide Pinned, Reverted, Restorable, Covered, Enumerates, Listable, Targets, Restored, TuplesReadable;
      ghost var start, db, list := store.log, store.db, cleared.list;
      NonePinned(store.marks);
      var read := store.ReadAll();
      if read.None? {
        NothingReverted(store.quiet, start, db, store.db, list);
        return false, Preflighting;
      }
      ghost var mid, told, marks := store.db, store.told, store.marks;
      ok := RestoreAndForget(owner, read.value);
      stage := if ok then Done else Writing;
      PinnedThen(owner, |old(store.told)|, old(store.marks), told, marks, store.told, store.marks);
      RevertedFrom(store.quiet, start, store.log, db, mid, store.db, list, cleared.list);
    }

    method Revert() returns (r: Result)
      requires Covered(store.log, cleared.list)
      modifies store`db, store`owner, store`keyed, store`told, store`images, store`reported, store`writes, store`log, store`marks, cleared
      ensures Grew() && Covered(store.log, cleared.list)
      ensures Reverted(store.quiet, old(store.log), store.log, old(store.db), store.db, old(cleared.list), cleared.list)
      ensures GivesBack(store.quiet, store.log[|old(store.log)|..], old(store.db), store.db, old(cleared.list), r.ok)
      // Each write follows an owner answer of its own that names the owner answering first.
      ensures store.log != old(store.log) ==>
                && |store.told| > |old(store.told)| && store.told[|old(store.told)|].OwnerIs?
                && Asked(store.told[|old(store.told)|].owner)
      ensures r.ok ==> cleared.list == []
      ensures cleared.reliable && !r.ok ==> cleared.list == old(cleared.list)
      ensures r.writes == store.writes - old(store.writes)
      ensures store.quiet && store.log != old(store.log) ==> Listable(old(store.db))
      // When nothing interferes and nothing fails, it succeeds exactly when nothing is listed, or the state can be
      // enumerated, every listed action can be restored, and the client has writes enough left.
      ensures store.Steady() && cleared.reliable ==> (r.ok <==> old(Revertible(cleared.list)))
    {
      hide Pinned, Reverted, GivesBack, Restorable, Covered, Enumerates, Listable, Targets, Restored, ExactAnswers, TuplesReadable;
      NonePinned(store.marks);
      ghost var start, db, list := store.log, store.db, cleared.list;
      var startWrites := store.writes;
      r := Result(false, Preflighting, 0);
      NothingReverted(store.quiet, store.log, db, db, list);
      NothingGivenBack(store.quiet, store.log, db, db, list);
      var settable := store.CheckSetterContract();
      NothingReverted(store.quiet, store.log, db, store.db, list);
      NothingGivenBack(store.quiet, store.log, db, store.db, list);
      if !settable {
        return;
      }
      var owner := store.CurrentOwner();
      NothingReverted(store.quiet, store.log, db, store.db, list);
      NothingGivenBack(store.quiet, store.log, db, store.db, list);
      if owner.None? {
        return;
      }
      var existing := cleared.Load();
      if existing.None? {
        return;
      }
      if existing.value == [] {
        return Result(true, Done, 0);
      }
      ghost var mid, told, marks := store.db, store.told, store.marks;
      var ok, stage := ReadAndRestore(owner.value);
      PinnedThen(owner.value, |old(store.told)|, old(store.marks), told, marks, store.told, store.marks);
      RevertedFrom(store.quiet, start, store.log, db, mid, store.db, list, cleared.list);
      RevertGivesBack(store.quiet, start, store.log, db, store.db, list, cleared.list, ok);
      r := Result(ok, stage, store.writes - startWrites);
    }

    // ---- whole runs ---------------------------------------------------------------

    /** Any sequence of calls, each of which may stop anywhere. A call cut short by a crash
        leaves the state of the call whose next store access failed. */
    method AnyRun(steps: nat)
      requires WellFormed(cfg)
      requires Covered(store.log, cleared.list)
      modifies store`db, store`owner, store`keyed, store`told, store`images, store`probe, store`reported, store`writes, store`log, store`marks, cleared
      ensures Grew() && Covered(store.log, cleared.list) && Recorded(store.log, cleared.list)
    {
      CoveredIsRecorded(store.log, cleared.list);
      for i := 0 to steps
        invariant Grew() && Covered(store.log, cleared.list) && Recorded(store.log, cleared.list)
      {
        var choice: nat := *;
        var draft: Draft := *;
        if choice == 0 {
          ghost var before, list := store.log, cleared.list;
          var r, heard := WriteProjectKeys(draft);
          OutstandingAfterAssigns(before, store.log[|before|..]);
          assert store.log == before + store.log[|before|..] && cleared.list == list;
        } else if choice == 1 {
          var confirmed: Preview := *;
          var r, latest, heard, clears := ApplyForced(confirmed, draft);
        } else {
          var r := Revert();
        }
        CoveredIsRecorded(store.log, cleared.list);
      }
    }

    /** When nobody else writes, an Apply cut off anywhere and then run again ends as one
        uninterrupted run would, and an Apply after a successful one writes nothing. The failures
        stop before the second call; on a daemon with exact keyed answers it then succeeds exactly
        when the first could begin and the client has writes enough left. */
    method ApplyAgain(draft: Draft) returns (one: Result, two: Result, ghost k: nat)
      requires WellFormed(cfg) && store.quiet
      modifies store`db, store`owner, store`keyed, store`told, store`images, store`probe, store`writes, store`log, store`marks, store`reliable
      ensures k <= |Plan(cfg, draft, old(store.db))| && (one.ok ==> k == |Plan(cfg, draft, old(store.db))|)
      ensures old(store.log) + Plan(cfg, draft, old(store.db))[..k] <= store.log && one.writes <= k
      ensures two.ok ==> store.db == Run(old(store.db), Plan(cfg, draft, old(store.db)))
      ensures one.ok ==> store.log == old(store.log) + Plan(cfg, draft, old(store.db))
      ensures store.exact && Lists(store.order, old(store.db)) ==>
                (two.ok <==>
                   && Applicable(cfg, draft, old(store.db))
                   && old(store.writes) + one.writes + |Plan(cfg, draft, old(store.db))| - k <= MAX_WRITES)
    {
      hide ShownWrites, Pinned, Plan, Run, Applicable, HeardOf, CleanPreflight, OverheardFirst, AppliedImage, ProjectWrites, Lists, Listable, DraftKnown;
      ghost var db, start, owner := store.db, store.log, store.owner;
      ghost var heard;
      one, heard := WriteProjectKeys(draft);
      ghost var mid := store.log;
      k := |mid| - |start|;
      assert mid == start + Plan(cfg, draft, db)[..k] && store.db == Run(db, Plan(cfg, draft, db)[..k]);
      InterruptedApplyResumes(cfg, draft, db, k);
      ghost var cut := store.db;
      if store.exact && Lists(store.order, db) {
        ListsCut(cfg, draft, store.order, db, k);
        if k > 0 {
          CleanIffApplicable(cfg, draft, heard, store.order, db, owner);
        }
        BeginsAgain(cfg, draft, db, k);
      }
      store.reliable := true;
      owner := store.owner;
      ghost var room := Room(|Plan(cfg, draft, cut)|);
      two, heard := WriteProjectKeys(draft);
      if store.exact && Lists(store.order, db) {
        OutcomeExact(cfg, draft, heard, store.order, cut, owner, room, two.ok);
      }
      assert one.ok ==> Plan(cfg, draft, db)[k..] == [] && Plan(cfg, draft, db)[..k] == Plan(cfg, draft, db);
    }

    /** When nobody else writes, a Revert cut off anywhere and then run again ends as one
        uninterrupted Revert would. Once the failures stop, the second call succeeds exactly when the
        first did or what is still listed can be reverted. */
    method RevertAgain() returns (one: Result, two: Result)
      requires store.quiet && Covered(store.log, cleared.list)
      modifies store`db, store`owner, store`keyed, store`told, store`images, store`reported, store`writes, store`log, store`marks, store`reliable, cleared
      ensures two.ok ==> cleared.list == [] && store.db == Restored(old(store.db), Targets(old(cleared.list)))
      ensures two.ok ==> GivenBack(old(store.db), store.db, old(cleared.list))
      ensures cleared.reliable ==>
                (two.ok <==>
                   || one.ok || old(cleared.list) == []
                   || (Listable(old(store.db)) && Restorable(old(store.db), old(cleared.list)) &&
                       old(store.writes) + one.writes + |Targets(old(cleared.list))| <= MAX_WRITES))
    {
      hide Pinned, Listable, Restorable, GivesBack, GivenBack;
      ghost var db, list, start := store.db, cleared.list, store.log;
      RestoredIsGivenBack(db, list);
      one := Revert();
      ghost var k, mid, left := |store.log| - |start|, store.log, cleared.list;
      InterruptedRevertResumes(db, list, k);
      RestoredListable(db, Targets(list)[..k], list);
      assert k == 0 ==> Restored(db, Targets(list)[..k]) == db;
      assert k == |Targets(list)| ==> Targets(list)[..k] == Targets(list);
      store.reliable := true;
      two := Revert();
      ghost var n := |store.log| - |mid|;
      assert left == [] ==> Targets(left) == [];
      assert n == |Targets(left)| ==> Targets(left)[..n] == Targets(left);
    }
  }
}
