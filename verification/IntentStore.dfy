// The float-intent file on disk: gated reads, and a replacement that never
// leaves anything but the whole old or the whole new body in the final file.

module IntentStore {
  import opened Prelude
  import opened IntentCodec

  const STORE_FILE := "float-intent.json"

  /** A directory entry; conforming means a regular file of the user's with mode 0600. */
  datatype File = File(body: string, conforming: bool)

  type Listing = map<string, File>

  datatype Gate = Missing | Ours | Refused

  function GateOf(files: Listing): Gate {
    if STORE_FILE !in files then Missing else if files[STORE_FILE].conforming then Ours else Refused
  }

  /** The final file is there and is not ours. */
  ghost predicate Foreign(files: Listing) {
    STORE_FILE in files && !files[STORE_FILE].conforming
  }

  /** The directory as it was, save for the temporary file and a final file that is either
      untouched or holds the whole new body. */
  ghost predicate OldOrNew(before: Listing, now: Listing, temp: string, body: string) {
    && (forall n | n != temp && n != STORE_FILE :: n in now <==> n in before)
    && (forall n | n != temp && n != STORE_FILE && n in before && n in now :: now[n] == before[n])
    && ((STORE_FILE in now && now[STORE_FILE].body == body) || SameFinal(before, now))
  }

  ghost predicate SameFinal(before: Listing, now: Listing) {
    (STORE_FILE in now <==> STORE_FILE in before) && (STORE_FILE in now ==> now[STORE_FILE] == before[STORE_FILE])
  }

  /** Every directory state since the n-th one satisfies OldOrNew: a crash at any step leaves one of them. */
  ghost predicate WholeThroughout(before: Listing, history: seq<Listing>, n: nat, temp: string, body: string) {
    forall k: nat | n <= k < |history| :: OldOrNew(before, history[k], temp, body)
  }

  class Directory {
    /** Every system call succeeds and creates files as asked. */
    const reliable: bool
    var files: Listing
    /** Every state the directory has been in. */
    ghost var history: seq<Listing>

    ghost predicate Valid()
      reads this
    {
      history != [] && history[|history| - 1] == files
    }

    constructor (files: Listing, reliable: bool)
      ensures Valid() && this.files == files && this.reliable == reliable
    {
      this.files, this.reliable := files, reliable;
      history := [files];
    }

    method Become(now: Listing)
      requires Valid()
      modifies this
      ensures Valid() && files == now && history == old(history) + [now]
    {
      files := now;
      history := history + [now];
    }

    /** Exclusive creation: an occupant is never opened or changed. */
    method CreateExclusive(name: string) returns (ok: bool)
      requires Valid()
      modifies this
      ensures Valid()
      ensures ok ==> name !in old(files) && name in files
      ensures !ok ==> files == old(files) && history == old(history)
      ensures ok ==> files - {name} == old(files) && files[name].body == "" && history == old(history) + [files]
      ensures reliable && name !in old(files) ==> ok && files[name].conforming
    {
      var possible: bool, conforming: bool := *, *;
      if name in files || !(possible || reliable) {
        return false;
      }
      Become(files[name := File("", conforming || reliable)]);
      ok := true;
    }

    /** Write in chunks of any size; a failure leaves whatever prefix was written. */
    method WriteAll(name: string, body: string, ghost before: Listing) returns (ok: bool)
      requires Valid() && name in files && files[name].body == "" && name != STORE_FILE
      requires OldOrNew(before, files, name, body)
      modifies this
      ensures Valid() && old(history) <= history
      ensures files.Keys == old(files).Keys && files - {name} == old(files) - {name}
      ensures ok ==> files[name].body == body
      ensures files[name].conforming == old(files)[name].conforming && (reliable ==> ok)
      ensures WholeThroughout(before, history, |old(history)|, name, body)
    {
      var written: nat := 0;
      while written < |body|
        invariant Valid() && old(history) <= history
        invariant written <= |body| && name in files && files[name].body == body[..written]
        invariant files.Keys == old(files).Keys && files - {name} == old(files) - {name}
        invariant files[name].conforming == old(files)[name].conforming
        invariant OldOrNew(before, files, name, body) && WholeThroughout(before, history, |old(history)|, name, body)
      {
        var n: nat := *;
        if n <= written || n > |body| {
          if !reliable {
            return false;
          }
          n := |body|;
        }
        OnlyTempChanges(before, files, name, body, File(body[..n], files[name].conforming));
        Become(files[name := File(body[..n], files[name].conforming)]);
        written := n;
      }
      assert body[..written] == body;
      var synced: bool := *;
      ok := synced || reliable;
    }

    /** Best effort removal. */
    method Unlink(name: string)
      requires Valid()
      modifies this
      ensures Valid()
      ensures (files == old(files) && history == old(history)) || (files == old(files) - {name} && history == old(history) + [files])
      ensures reliable ==> name !in files
    {
      var possible: bool := *;
      if name in files && (possible || reliable) {
        Become(files - {name});
      }
    }

    /** Rename over the final file in one step. */
    method RenameToFinal(name: string) returns (ok: bool)
      requires Valid() && name in files && name != STORE_FILE
      modifies this
      ensures Valid()
      ensures ok ==> files == (old(files) - {name})[STORE_FILE := old(files)[name]] && history == old(history) + [files]
      ensures !ok ==> files == old(files) && history == old(history)
      ensures reliable ==> ok
    {
      var possible: bool := *;
      if !possible && !reliable {
        return false;
      }
      Become((files - {name})[STORE_FILE := files[name]]);
      ok := true;
    }
  }

  lemma OnlyTempChanges(before: Listing, now: Listing, temp: string, body: string, file: File)
    requires OldOrNew(before, now, temp, body) && temp != STORE_FILE
    ensures OldOrNew(before, now[temp := file], temp, body)
    ensures OldOrNew(before, now - {temp}, temp, body)
  {
  }

  /** Only a temporary file created here is ever removed; an occupant of its name is preserved
      and stops the write. The directory passes through whole-old or whole-new states only. */
  method AtomicReplace(dir: Directory, body: string, temp: string) returns (ok: bool)
    requires dir.Valid() && temp != STORE_FILE
    modifies dir
    ensures dir.Valid() && old(dir.history) <= dir.history
    ensures WholeThroughout(old(dir.files), dir.history, |old(dir.history)|, temp, body)
    ensures temp in old(dir.files) ==> !ok && dir.files == old(dir.files) && dir.history == old(dir.history)
    ensures ok ==> dir.files == old(dir.files)[STORE_FILE := File(body, true)]
    ensures dir.reliable ==> ok == (temp !in old(dir.files))
  {
    ghost var before := dir.files;
    ok := dir.CreateExclusive(temp);
    if !ok {
      return;
    }
    assert dir.files - {temp} == before;
    assert OldOrNew(before, dir.files, temp, body);
    ok := dir.WriteAll(temp, body, before);
    assert dir.files - {temp} == before;
    if ok {
      ok := dir.RenameToFinal(temp);
      if ok {
        assert OldOrNew(before, dir.files, temp, body);
        ok := GateOf(dir.files) == Ours;
        return;
      }
    }
    assert OldOrNew(before, dir.files - {temp}, temp, body);
    dir.Unlink(temp);
  }

  // ---- reads and writes of the whole snapshot ----

  datatype IntentRead = IntentRead(members: seq<string>, stored: nat, tile: seq<string>, tileStored: nat, degraded: Option<Reason>)

  function EmptyRead(degraded: Option<Reason>): IntentRead { IntentRead([], 0, [], 0, degraded) }

  /** What the listing reads as under a namespace, pruned to a live inventory. */
  ghost predicate ReadsAs(files: Listing, n: IntentNamespace, live: Option<seq<string>>, r: IntentRead) {
    if STORE_FILE !in files then r == IntentRead([], 0, [], 0, None)
    else if Foreign(files) || |files[STORE_FILE].body| > MAX_STORE_FILE_BYTES then r == IntentRead([], 0, [], 0, Some(Unreadable))
    else exists p :: Means(files[STORE_FILE].body, n, p) && r == ReadOf(p, live)
  }

  function ReadOf(p: Parsed, live: Option<seq<string>>): IntentRead {
    match p
    case Err(reason) => EmptyRead(Some(reason))
    case Ok(members, tile) => IntentRead(Pruned(members, live), |members|, Pruned(tile, live), |tile|, None)
  }

  /** Reading changes nothing, and a failing call degrades to empty. */
  method ReadFiltered(dir: Directory, n: IntentNamespace, live: Option<seq<string>>) returns (r: IntentRead)
    ensures (r == IntentRead([], 0, [], 0, Some(Unreadable)) && !dir.reliable) || ReadsAs(dir.files, n, live, r)
  {
    var failed: bool := *;
    if failed && !dir.reliable {
      return EmptyRead(Some(Unreadable));
    }
    match GateOf(dir.files) {
      case Missing => r := EmptyRead(None);
      case Refused => r := EmptyRead(Some(Unreadable));
      case Ours =>
        var body := dir.files[STORE_FILE].body;
        if |body| > MAX_STORE_FILE_BYTES {
          return EmptyRead(Some(Unreadable));
        }
        var p := ParseStoreBytes(body, n);
        r := ReadOf(p, live);
    }
  }

  datatype Written = Stored(members: nat, tile: nat) | InvalidMembers | StoreUnavailable

  /** The lists a snapshot is stored as: both sides accepted, disjoint, and within the cap. */
  ghost predicate StoredAs(n: IntentNamespace, members: seq<string>, tile: seq<string>, out: seq<string>, outTile: seq<string>) {
    && Accepts(members, Some(out)) && Accepts(tile, Some(outTile)) && Disjoint(out, outTile)
    && |Body(n, out, outTile)| <= MAX_STORE_FILE_BYTES
  }

  /** The snapshot as it would be stored, or nothing when the request itself is refused. */
  method Prepare(n: IntentNamespace, members: seq<string>, tile: seq<string>) returns (r: Option<(seq<string>, seq<string>)>)
    ensures r.Some? ==> StoredAs(n, members, tile, r.value.0, r.value.1)
    ensures r.None? ==> !exists out, outTile :: StoredAs(n, members, tile, out, outTile)
  {
    var out := NormalizeAll(members);
    if out.None? {
      return None;
    }
    var outTile := NormalizeAll(tile);
    if outTile.None? {
      return None;
    }
    if (exists id <- out.value :: id in outTile.value) || |Body(n, out.value, outTile.value)| > MAX_STORE_FILE_BYTES {
      forall o, t
        ensures !StoredAs(n, members, tile, o, t)
      {
        OnlySnapshot(n, members, tile, out.value, outTile.value, o, t);
      }
      return None;
    }
    r := Some((out.value, outTile.value));
  }

  lemma OnlySnapshot(n: IntentNamespace, members: seq<string>, tile: seq<string>, out: seq<string>, outTile: seq<string>, o: seq<string>, t: seq<string>)
    requires Accepts(members, Some(out)) && Accepts(tile, Some(outTile))
    ensures StoredAs(n, members, tile, o, t) ==> o == out && t == outTile
  {
    if StoredAs(n, members, tile, o, t) {
      AcceptsUnique(members, Some(out), Some(o));
      AcceptsUnique(tile, Some(outTile), Some(t));
    }
  }

  /** Replace both sides. A request is refused exactly when no snapshot could be stored, and then
      before the disk is touched; a file that is not ours is never replaced. */
  method WriteBoth(dir: Directory, n: IntentNamespace, members: seq<string>, tile: seq<string>, temp: string)
    returns (r: Written, ghost out: seq<string>, ghost outTile: seq<string>)
    requires dir.Valid() && temp != STORE_FILE
    modifies dir
    ensures dir.Valid() && old(dir.history) <= dir.history
    ensures r.InvalidMembers? <==> !exists o, t :: StoredAs(n, members, tile, o, t)
    ensures !r.InvalidMembers? ==> StoredAs(n, members, tile, out, outTile)
    ensures r.InvalidMembers? || Foreign(old(dir.files)) || temp in old(dir.files) ==>
              !r.Stored? && dir.files == old(dir.files) && dir.history == old(dir.history)
    ensures WholeThroughout(old(dir.files), dir.history, |old(dir.history)|, temp, Body(n, out, outTile))
    ensures r.Stored? ==>
              && r == Stored(|out|, |outTile|)
              && dir.files == old(dir.files)[STORE_FILE := File(Body(n, out, outTile), true)]
    ensures dir.reliable ==>
              (r.Stored? <==> !r.InvalidMembers? && !Foreign(old(dir.files)) && temp !in old(dir.files))
  {
    out, outTile := [], [];
    var snapshot := Prepare(n, members, tile);
    if snapshot.None? {
      return InvalidMembers, out, outTile;
    }
    out, outTile := snapshot.value.0, snapshot.value.1;
    var accessible: bool := *;
    if (!accessible && !dir.reliable) || GateOf(dir.files) == Refused {
      return StoreUnavailable, out, outTile;
    }
    var ok := AtomicReplace(dir, Body(n, snapshot.value.0, snapshot.value.1), temp);
    r := if ok then Stored(|snapshot.value.0|, |snapshot.value.1|) else StoreUnavailable;
  }

  /** An accepted write reads back, in full or pruned, as the lists it stored; a later owner of
      another namespace reads nothing of them. */
  lemma AcceptedWriteReadsBack(files: Listing, n: IntentNamespace, other: IntentNamespace, members: seq<string>, tile: seq<string>,
                               out: seq<string>, outTile: seq<string>, live: Option<seq<string>>, r: IntentRead)
    requires StoredAs(n, members, tile, out, outTile)
    requires STORE_FILE in files && files[STORE_FILE] == File(Body(n, out, outTile), true)
    ensures ReadsAs(files, other, live, r) <==>
            r == if other == n then IntentRead(Pruned(out, live), |out|, Pruned(outTile, live), |outTile|, None)
                 else IntentRead([], 0, [], 0, Some(NamespaceMismatch))
  {
    var body := files[STORE_FILE].body;
    var p := if other == n then Ok(out, outTile) else Err(NamespaceMismatch);
    StoredBodyReadsBack(n, other, out, outTile);
    assert Means(body, other, p);
    forall q | Means(body, other, q)
      ensures q == p
    {
      MeaningUnique(body, other, p, q);
    }
  }
}
