// The two stores the reconciler drives: the shared key-binding daemon, which
// other clients write too and whose every call may fail, and the durable
// record of the actions Force cleared.

module ShortcutStore {
  import opened Prelude
  import opened Shortcuts

  /** What the daemon holds for one action. */
  datatype Entry = Entry(names: string, active: seq<Key>, defaults: seq<Key>)
  type Db = map<ActionId, Entry>

  /** The answers to one keyed query and its availability query. */
  datatype Keyed = Keyed(holders: seq<Holder>, available: bool)

  /** One answer of the daemon about its owner or about the holders of a key. */
  datatype Answer =
    | OwnerIs(owner: string)
    | HoldersAre(key: Key, holders: seq<Holder>)
    | AvailableIs(key: Key, available: bool)

  /** The latest keyed query a client has had answered, and its place among the answers. */
  datatype Probe = Unprobed | Probed(turn: nat, key: Key, holders: seq<Holder>)

  /** One write that reached the daemon. A foreign write also records what the
      writer had last been told: the latest keyed answer, and the defaults the
      daemon last reported for that action. */
  datatype Event =
    | Assign(id: ActionId, keys: seq<Key>)
    | Foreign(id: ActionId, keys: seq<Key>, probe: Probe, reported: Option<seq<Key>>)

  function Put(db: Db, id: ActionId, keys: seq<Key>): Db {
    if id in db then db[id := db[id].(active := keys)] else db
  }

  function Run(db: Db, events: seq<Event>): Db {
    if events == [] then db
    else
      var last := events[|events| - 1];
      Put(Run(db, events[..|events| - 1]), last.id, last.keys)
  }

  datatype Lookup = Missing | One(tuple: Tuple) | Many

  /** The record an enumeration carries for an id, if it carries exactly one. */
  function Find(ts: seq<Tuple>, id: ActionId): (r: Lookup)
    ensures r.One? ==> r.tuple.id == id && r.tuple in ts
  {
    if ts == [] then Missing
    else
      var last := ts[|ts| - 1];
      var before := Find(ts[..|ts| - 1], id);
      if last.id != id then before
      else if before == Missing then One(last)
      else Many
  }

  /** The enumeration lists exactly what the daemon holds, each action once, in any order. */
  ghost predicate Enumerates(ts: seq<Tuple>, db: Db) {
    forall id :: Find(ts, id) == if id in db then One(Tuple(id, db[id].names, db[id].active)) else Missing
  }

  method FindAllowlisted(ts: seq<Tuple>, id: ActionId) returns (r: Lookup)
    ensures r == Find(ts, id)
    ensures r.One? ==> r.tuple.id == id && r.tuple in ts
  {
    r := Missing;
    for i := 0 to |ts|
      invariant r == Find(ts[..i], id)
      invariant r.One? ==> r.tuple.id == id && r.tuple in ts
    {
      assert ts[..i + 1][..i] == ts[..i];
      if ts[i].id == id {
        r := if r == Missing then One(ts[i]) else Many;
      }
    }
    assert ts[..|ts|] == ts;
  }

  /** An entry whose names and lists are within bounds. */
  predicate EntryValid(id: ActionId, entry: Entry) {
    IdValid(id) && LabelValid(entry.names) && KeysValid(entry.active) && KeysValid(entry.defaults)
  }

  /** An enumeration of this state can be read: not too many actions, each within bounds. */
  predicate Listable(db: Db) {
    |db| <= MAX_TUPLES && forall id <- db :: EntryValid(id, db[id])
  }

  predicate TupleValid(t: Tuple) {
    IdValid(t.id) && LabelValid(t.names) && KeysValid(t.active)
  }

  /** What every enumeration that is not refused keeps to. */
  predicate TuplesReadable(ts: seq<Tuple>) {
    |ts| <= MAX_TUPLES && forall t <- ts :: TupleValid(t)
  }

  /** What every keyed answer that is not refused keeps to. */
  predicate HoldersReadable(holders: seq<Holder>) {
    |holders| <= MAX_TUPLES && forall h <- holders :: HolderValid(h)
  }

  /** What a setter checks before it asks the daemon. */
  predicate Writable(id: ActionId, names: string, keys: seq<Key>) {
    IdValid(id) && LabelValid(names) && KeysValid(keys)
  }

  /** Everything the daemon holds, in an order of its own choosing. */
  method Enumeration(db: Db) returns (reply: seq<Tuple>)
    ensures Enumerates(reply, db)
    ensures |reply| == |db| && forall t <- reply :: t.id in db && t == Tuple(t.id, db[t.id].names, db[t.id].active)
  {
    reply := [];
    var rest := db.Keys;
    assert |db.Keys| == |db|;
    while rest != {}
      invariant rest <= db.Keys && |reply| + |rest| == |db|
      invariant forall t <- reply :: t.id in db && t == Tuple(t.id, db[t.id].names, db[t.id].active)
      invariant forall id :: Find(reply, id) ==
                  if id in db && id !in rest then One(Tuple(id, db[id].names, db[id].active)) else Missing
    {
      var id :| id in rest;
      var next := Tuple(id, db[id].names, db[id].active);
      assert (reply + [next])[..|reply|] == reply;
      reply := reply + [next];
      rest := rest - {id};
    }
  }

  /** The listed actions that hold a key, in list order. */
  function HeldBy(order: seq<ActionId>, db: Db, key: Key): seq<Holder> {
    if order == [] then []
    else
      var id := order[0];
      (if id in db && key in db[id].active then [Holder(id, db[id].active, db[id].defaults)] else []) +
      HeldBy(order[1..], db, key)
  }

  /** Keyed answers that list exactly the actions holding the key. */
  function ExactAnswers(order: seq<ActionId>, db: Db): Key -> Keyed {
    (key: Key) => Keyed(HeldBy(order, db, key), HeldBy(order, db, key) == [])
  }

  /** Writes one daemon client confirms in its lifetime. */
  const MAX_WRITES := 64
  type WriteCount = n: nat | n <= MAX_WRITES

  /** The last owner answer before the mark, and no earlier than from, named this owner. */
  ghost predicate AskedAt(told: seq<Answer>, from: nat, mark: nat, owner: string) {
    exists i :: from <= i < mark <= |told| && told[i] == OwnerIs(owner) && forall k | i < k < mark :: !told[k].OwnerIs?
  }

  function Since(start: nat, marks: seq<nat>, k: nat): nat
    requires k < |marks|
  {
    if k == 0 then start else marks[k - 1]
  }

  /** Each write went out after an owner answer of its own, the last one heard, that named this owner. */
  ghost predicate Pinned(told: seq<Answer>, start: nat, marks: seq<nat>, owner: string) {
    forall k | 0 <= k < |marks| :: AskedAt(told, Since(start, marks, k), marks[k], owner)
  }

  lemma NonePinned(m: seq<nat>)
    ensures m[|m|..] == [] && forall told, start, owner :: Pinned(told, start, m[|m|..], owner)
  {
  }

  lemma PinnedThen(owner: string, start: nat, m0: seq<nat>, told1: seq<Answer>, m1: seq<nat>, told2: seq<Answer>, m2: seq<nat>)
    requires m0 <= m1 <= m2 && start <= |told1| && told1 <= told2
    requires Pinned(told1, start, m1[|m0|..], owner) && Pinned(told2, |told1|, m2[|m1|..], owner)
    ensures Pinned(told2, start, m2[|m0|..], owner)
  {
    var a, b, c := m1[|m0|..], m2[|m1|..], m2[|m0|..];
    forall k | 0 <= k < |c|
      ensures AskedAt(told2, Since(start, c, k), c[k], owner)
    {
      if k < |a| {
        assert AskedAt(told1, Since(start, a, k), a[k], owner);
        assert Since(start, a, k) == Since(start, c, k);
      } else {
        assert AskedAt(told2, Since(|told1|, b, k - |a|), b[k - |a|], owner);
        if k == |a| && k > 0 {
          assert AskedAt(told1, Since(start, a, k - 1), a[k - 1], owner);
        }
      }
    }
  }

  lemma PinnedNow(owner: string, told0: seq<Answer>, m0: seq<nat>, asked: seq<Answer>, told: seq<Answer>, m: seq<nat>)
    requires told0 + [OwnerIs(owner)] <= asked <= told && forall k | |told0| < k < |asked| :: !asked[k].OwnerIs?
    requires m == m0 || m == m0 + [|asked|]
    ensures Pinned(told, |told0|, m[|m0|..], owner)
  {
    assert AskedAt(told, |told0|, |asked|, owner) by {
      assert told[|told0|] == OwnerIs(owner);
    }
    assert m[|m0|..] == [] || m[|m0|..] == [|asked|];
  }

  lemma PinnedApart(start: nat, m0: seq<nat>, told1: seq<Answer>, m1: seq<nat>, told2: seq<Answer>, m2: seq<nat>, first: string, second: string)
    requires m0 <= m1 <= m2 && start <= |told1| && told1 <= told2
    requires Pinned(told1, start, m1[|m0|..], first) && Pinned(told2, |told1|, m2[|m1|..], second)
    ensures Pinned(told2, start, m2[|m0|..][..|m1| - |m0|], first) && Pinned(told2, start, m2[|m0|..][|m1| - |m0|..], second)
  {
    assert m2[|m0|..][..|m1| - |m0|] == m1[|m0|..] && m2[|m0|..][|m1| - |m0|..] == m2[|m1|..];
    PinnedThen(first, start, m0, told1, m1, told2, m1);
    PinnedThen(second, start, m1, told1, m1, told2, m2);
  }

  class Store {
    var db: Db
    var owner: string
    var keyed: Key -> Keyed
    /** Writes confirmed so far (the daemon client's own counter). */
    var writes: WriteCount
    /** Nobody else writes, and replies are faithful; calls may still fail. */
    const quiet: bool
    /** Keyed answers are worked out from what is held, listing actions in this order. */
    const exact: bool
    const order: seq<ActionId>
    /** No call fails. */
    var reliable: bool

    ghost var log: seq<Event>
    /** Every enumeration, and every owner and keyed answer, in order. */
    ghost var images: seq<seq<Tuple>>
    ghost var told: seq<Answer>
    ghost var probe: Probe
    ghost var reported: map<ActionId, seq<Key>>
    /** How many answers had been heard when each logged write went out. */
    ghost var marks: seq<nat>

    constructor (db: Db, owner: string, keyed: Key -> Keyed, quiet: bool, exact: bool, order: seq<ActionId>, reliable: bool)
      ensures this.db == db && this.owner == owner && this.keyed == keyed
      ensures this.quiet == quiet && this.exact == exact && this.order == order && this.reliable == reliable
      ensures writes == 0 && log == [] && images == [] && told == [] && probe == Unprobed && reported == map[] && marks == []
    {
      this.db, this.owner, this.keyed := db, owner, keyed;
      this.quiet, this.exact, this.order, this.reliable := quiet, exact, order, reliable;
      writes, log, images, told, probe, reported, marks := 0, [], [], [], Unprobed, map[], [];
    }

    /** Nothing interferes and nothing fails. */
    predicate Steady()
      reads `reliable
    {
      quiet && reliable
    }

    /** How the daemon answers keyed queries at the moment. */
    function Answering(): Key -> Keyed
      reads `db, `keyed
    {
      if exact then ExactAnswers(order, db) else keyed
    }

    /** Other clients, and the daemon itself, may do anything between two calls. */
    method Others()
      modifies `db, `owner, `keyed
      ensures quiet ==> db == old(db) && owner == old(owner) && keyed == old(keyed)
    {
      if !quiet {
        db, owner, keyed := *, *, *;
      }
    }

    method CheckSetterContract() returns (ok: bool)
      modifies `db, `owner, `keyed
      ensures quiet ==> db == old(db) && owner == old(owner) && keyed == old(keyed)
      ensures reliable ==> ok
    {
      Others();
      var fails: bool := *;
      ok := reliable || !fails;
    }

    method CurrentOwner() returns (r: Option<string>)
      modifies `db, `owner, `keyed, `told
      ensures r.None? ==> told == old(told)
      ensures r.Some? ==> told == old(told) + [OwnerIs(r.value)]
      ensures quiet ==> db == old(db) && owner == old(owner) && keyed == old(keyed)
      ensures quiet && r.Some? ==> r.value == owner
      ensures reliable ==> r.Some?
    {
      Others();
      var fails: bool := *;
      r := None;
      if !fails || reliable {
        r := Some(owner);
        told := told + [OwnerIs(owner)];
      }
    }

    method ReadAll() returns (r: Option<seq<Tuple>>)
      modifies `db, `owner, `keyed, `images
      ensures quiet ==> db == old(db) && owner == old(owner) && keyed == old(keyed)
      ensures r.None? ==> images == old(images)
      ensures r.Some? ==> images == old(images) + [r.value]
      // A reply with anything out of bounds is refused as a whole.
      ensures r.Some? ==> TuplesReadable(r.value)
      ensures quiet && r.Some? ==> Enumerates(r.value, db) && Listable(db)
      ensures Steady() && Listable(db) ==> r.Some?
    {
      Others();
      var fails: bool := *;
      r := None;
      if !fails || reliable {
        var reply: seq<Tuple> := *;
        if quiet {
          reply := Enumeration(db);
        }
        if TuplesReadable(reply) && (quiet ==> Listable(db)) {
          images := images + [reply];
          r := Some(reply);
        }
      }
    }

    method ShortcutsByKey(key: Key) returns (r: Option<seq<Holder>>)
      modifies `db, `owner, `keyed, `told, `probe
      ensures quiet ==> db == old(db) && owner == old(owner) && keyed == old(keyed)
      ensures r.None? ==> probe == old(probe) && told == old(told)
      ensures r.Some? ==> probe == Probed(|old(told)|, key, r.value) && told == old(told) + [HoldersAre(key, r.value)]
      ensures r.Some? ==> HoldersReadable(r.value)
      ensures quiet && r.Some? ==> r.value == Answering()(key).holders
      ensures Steady() && HoldersReadable(Answering()(key).holders) ==> r.Some?
    {
      Others();
      var fails: bool := *;
      r := None;
      if (!fails || reliable) && HoldersReadable(Answering()(key).holders) {
        r := Some(Answering()(key).holders);
        probe := Probed(|told|, key, r.value);
        told := told + [HoldersAre(key, r.value)];
      }
    }

    method ShortcutAvailable(key: Key) returns (r: Option<bool>)
      modifies `db, `owner, `keyed, `told
      ensures quiet ==> db == old(db) && owner == old(owner) && keyed == old(keyed)
      ensures r.None? ==> told == old(told)
      ensures r.Some? ==> told == old(told) + [AvailableIs(key, r.value)]
      ensures quiet && r.Some? ==> r.value == Answering()(key).available
      ensures reliable ==> r.Some?
    {
      Others();
      var fails: bool := *;
      r := None;
      if !fails || reliable {
        r := Some(Answering()(key).available);
        told := told + [AvailableIs(key, r.value)];
      }
    }

    /** A project-row write, refused out of bounds and beyond the lifetime bound. It may take effect
        and still be reported as failed; an echo of the requested keys means it took effect. */
    method WriteKeys(id: ActionId, names: string, keys: seq<Key>) returns (confirmed: Option<seq<Key>>)
      modifies `db, `owner, `keyed, `writes, `log, `marks
      ensures log == old(log) || log == old(log) + [Assign(id, keys)]
      ensures marks == if log == old(log) then old(marks) else old(marks) + [|told|]
      ensures confirmed == Some(keys) ==> log == old(log) + [Assign(id, keys)]
      ensures !Writable(id, names, keys) || old(writes) == MAX_WRITES ==> confirmed.None? && log == old(log)
      ensures writes == if confirmed == Some(keys) then old(writes) + 1 else old(writes)
      ensures quiet ==> owner == old(owner)
      ensures quiet ==> db == if log == old(log) then old(db) else Put(old(db), id, keys)
      ensures reliable && Writable(id, names, keys) && old(writes) < MAX_WRITES ==> confirmed == Some(keys)
    {
      Others();
      confirmed := None;
      if Writable(id, names, keys) && writes < MAX_WRITES {
        var reached: bool := *;
        if reached || reliable {
          db := Put(db, id, keys);
          keyed := *;
          log, marks := log + [Assign(id, keys)], marks + [|told|];
        }
        var reply: Option<seq<Key>> := *;
        confirmed := if reliable then Some(keys) else if reply == Some(keys) && !reached then None else reply;
        if confirmed == Some(keys) {
          writes := writes + 1;
        }
      }
    }

    method DefaultShortcutKeys(id: ActionId, names: string) returns (r: Option<seq<Key>>)
      modifies `db, `owner, `keyed, `reported
      ensures quiet ==> db == old(db) && owner == old(owner) && keyed == old(keyed)
      ensures r.None? ==> reported == old(reported)
      ensures r.Some? ==> reported == old(reported)[id := r.value]
      ensures r.Some? ==> KeysValid(r.value)
      ensures quiet && r.Some? && id in db ==> r.value == db[id].defaults
      ensures Steady() && IdValid(id) && LabelValid(names) && id in db && KeysValid(db[id].defaults) ==> r.Some?
    {
      Others();
      var reply: seq<Key> := *;
      var fails: bool := *;
      reply := if quiet && id in db then db[id].defaults else reply;
      r := None;
      if IdValid(id) && LabelValid(names) && (!fails || reliable) && KeysValid(reply) {
        r := Some(reply);
        reported := reported[id := reply];
      }
    }

    /** A foreign write, refused out of bounds and beyond the lifetime bound. Success means it took
        effect; failure may come before or after it did. */
    method SetForeignShortcutKeys(id: ActionId, names: string, keys: seq<Key>) returns (ok: bool)
      modifies `db, `owner, `keyed, `writes, `log, `marks
      ensures var e := Foreign(id, keys, probe, if id in reported then Some(reported[id]) else None);
              && (log == old(log) || log == old(log) + [e])
              && (ok ==> log == old(log) + [e])
      ensures marks == if log == old(log) then old(marks) else old(marks) + [|told|]
      ensures !Writable(id, names, keys) || old(writes) == MAX_WRITES ==> !ok && log == old(log)
      ensures writes == if ok then old(writes) + 1 else old(writes)
      ensures quiet ==> owner == old(owner)
      ensures quiet ==> db == if log == old(log) then old(db) else Put(old(db), id, keys)
      ensures reliable && Writable(id, names, keys) && old(writes) < MAX_WRITES ==> ok
    {
      Others();
      ok := false;
      if Writable(id, names, keys) && writes < MAX_WRITES {
        var reached: bool := *;
        if reached || reliable {
          db := Put(db, id, keys);
          keyed := *;
          log := log + [Foreign(id, keys, probe, if id in reported then Some(reported[id]) else None)];
          marks := marks + [|told|];
        }
        var confirms: bool := *;
        ok := reliable || (reached && confirms);
        if ok {
          writes := writes + 1;
        }
      }
    }
  }

  /** The durable list of the actions Force cleared, replaced as a whole. */
  class ClearedStore {
    /** No call fails. */
    const reliable: bool
    var list: seq<ActionId>
    /** Attempts to change the list. */
    ghost var touches: nat

    constructor (reliable: bool)
      ensures list == [] && touches == 0 && this.reliable == reliable
    {
      list, touches, this.reliable := [], 0, reliable;
    }

    method Load() returns (r: Option<seq<ActionId>>)
      ensures r.Some? ==> r.value == list
      ensures reliable ==> r.Some?
    {
      var fails: bool := *;
      r := if fails && !reliable then None else Some(list);
    }

    /** Write, sync and read back: a failed save may already have replaced the list. */
    method Save(actions: seq<ActionId>) returns (ok: bool)
      modifies this
      ensures touches == old(touches) + 1
      ensures list == old(list) || list == actions
      ensures ok ==> list == actions
      ensures ok ==> |actions| <= MAX_TUPLES && forall id <- actions :: IdValid(id)
      ensures reliable ==> ok == (|actions| <= MAX_TUPLES && forall id <- actions :: IdValid(id))
    {
      touches := touches + 1;
      ok := |actions| <= MAX_TUPLES && forall id <- actions :: IdValid(id);
      if ok {
        var reached: bool := *;
        if reached || reliable { list := actions; }
        var confirms: bool := *;
        ok := reliable || (reached && confirms);
      }
    }

    method Clear() returns (ok: bool)
      modifies this
      ensures touches == old(touches) + 1
      ensures list == if ok then [] else old(list)
      ensures reliable ==> ok
    {
      touches := touches + 1;
      var fails: bool := *;
      ok := reliable || !fails;
      if ok { list := []; }
    }
  }
}
