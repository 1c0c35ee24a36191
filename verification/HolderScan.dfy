// The per-required-key holder scan behind Apply and the Force preview, and the
// status check that answers from the same replies.

module HolderScan {
  import opened Prelude
  import opened Shortcuts
  import opened ShortcutStore
  import Lexical
  import Sorting

  /** One holder to clear: what it has, what goes, what stays. */
  datatype ClearRow = ClearRow(id: ActionId, names: string, active: seq<Key>, removals: seq<Key>, remainder: seq<Key>)

  /** A holder listed for a required key that has no required key to clear. */
  datatype Blocker = Blocker(id: ActionId, key: Key)

  datatype Scan = Scan(rows: seq<ClearRow>, blocked: seq<Blocker>)

  const NothingFound := Scan([], [])

  datatype Occupancy = Clear | Conflict(key: Key, id: ActionId) | Unavailable

  /** Known friendly names of the unrelated actions, by joined identity. */
  type Names = map<string, string>

  /** Project rows and Lock Session own their chords; a conflict row may authorize one
      further holder of its relocation target. */
  predicate Exempt(cfg: Config, id: ActionId, key: Key)
    requires cfg.table != []
  {
    InCatalog(cfg, id) || id == LockRow(cfg).foreign ||
    exists row <- cfg.table :: key in row.target && row.authorized == Some(id)
  }

  function MakeRow(names: Names, required: seq<Key>, h: Holder): ClearRow {
    ClearRow(h.id, if JoinedId(h.id) in names then names[JoinedId(h.id)] else "",
             h.active, Conflicting(h.active, required), Remainder(h.active, required))
  }

  /** Index of the row keyed by a joined identity. */
  function FindRow(rows: seq<ClearRow>, joined: string): (r: Option<nat>)
    ensures r.Some? ==> r.value < |rows| && JoinedId(rows[r.value].id) == joined
    ensures r.None? ==> forall row <- rows :: JoinedId(row.id) != joined
  {
    if rows == [] then None
    else
      var front := rows[..|rows| - 1];
      match FindRow(front, joined)
      case Some(i) => Some(i)
      case None => if JoinedId(rows[|front|].id) == joined then Some(|front|) else None
  }

  function ScanHolder(cfg: Config, names: Names, required: seq<Key>, key: Key, h: Holder, s: Scan): Option<Scan>
    requires cfg.table != []
  {
    if !HolderValid(h) then None
    else if Exempt(cfg, h.id, key) then Some(s)
    else match FindRow(s.rows, JoinedId(h.id))
      case Some(i) => if s.rows[i].active != h.active then None else Some(s)
      case None =>
        var row := MakeRow(names, required, h);
        if row.removals == [] then Some(s.(blocked := s.blocked + [Blocker(h.id, key)]))
        else if |s.rows| + 1 > MAX_TUPLES then None
        else Some(s.(rows := s.rows + [row]))
  }

  function ScanHolders(cfg: Config, names: Names, required: seq<Key>, key: Key, hs: seq<Holder>, s: Scan): Option<Scan>
    requires cfg.table != []
    decreases |hs|
  {
    if hs == [] then Some(s)
    else match ScanHolders(cfg, names, required, key, hs[..|hs| - 1], s)
      case None => None
      case Some(mid) => ScanHolder(cfg, names, required, key, hs[|hs| - 1], mid)
  }

  function ScanKey(cfg: Config, names: Names, required: seq<Key>, key: Key, reply: Keyed, s: Scan): Option<Scan>
    requires cfg.table != []
  {
    if !KeyInRange(key) || |reply.holders| > MAX_TUPLES then None
    else match ScanHolders(cfg, names, required, key, reply.holders, s)
      case None => None
      case Some(next) => if (reply.holders == []) != reply.available then None else Some(next)
  }

  /** The scan over the first |replies| required keys. */
  function ScanKeys(cfg: Config, names: Names, required: seq<Key>, replies: seq<Keyed>): Option<Scan>
    requires cfg.table != [] && |replies| <= |required|
    decreases |replies|
  {
    if replies == [] then Some(NothingFound)
    else
      var n := |replies| - 1;
      match ScanKeys(cfg, names, required, replies[..n])
      case None => None
      case Some(s) => ScanKey(cfg, names, required, required[n], replies[n], s)
  }

  predicate RowBefore(a: ClearRow, b: ClearRow) {
    Lexical.Before(a.id.component, b.id.component) ||
    (a.id.component == b.id.component && Lexical.Before(a.id.action, b.id.action))
  }

  function SortRows(rows: seq<ClearRow>): seq<ClearRow> {
    Sorting.Sort(RowBefore, rows)
  }

  // ---- the status check ----------------------------------------------------

  function HoldersStatus(cfg: Config, key: Key, hs: seq<Holder>): Occupancy
    requires cfg.table != []
    decreases |hs|
  {
    if hs == [] then Clear
    else
      var h := hs[|hs| - 1];
      match HoldersStatus(cfg, key, hs[..|hs| - 1])
      case Clear =>
        if !HolderValid(h) then Unavailable
        else if Exempt(cfg, h.id, key) then Clear
        else Conflict(key, h.id)
      case settled => settled
  }

  function KeyStatus(cfg: Config, key: Key, reply: Keyed): Occupancy
    requires cfg.table != []
  {
    if !KeyInRange(key) || |reply.holders| > MAX_TUPLES then Unavailable
    else match HoldersStatus(cfg, key, reply.holders)
      case Clear => if (reply.holders == []) != reply.available then Unavailable else Clear
      case settled => settled
  }

  function KeysStatus(cfg: Config, required: seq<Key>, replies: seq<Keyed>): Occupancy
    requires cfg.table != [] && |replies| <= |required|
    decreases |replies|
  {
    if replies == [] then Clear
    else
      var n := |replies| - 1;
      match KeysStatus(cfg, required, replies[..n])
      case Clear => KeyStatus(cfg, required[n], replies[n])
      case settled => settled
  }

  // ---- whose holding matters -------------------------------------------------

  /** A holder the key must be taken from: no catalog row, not the action row 0 relocates, and not one
      that a conflict row with the key among its targets authorizes. */
  ghost predicate Outsider(cfg: Config, id: ActionId, key: Key)
    requires cfg.table != []
  {
    && (forall entry <- cfg.catalog :: entry.id != id) && id != cfg.table[0].foreign
    && forall row <- cfg.table | key in row.target :: row.authorized != Some(id)
  }

  lemma OutsiderIsNotExempt(cfg: Config, id: ActionId, key: Key)
    requires cfg.table != []
    ensures Outsider(cfg, id, key) <==> !Exempt(cfg, id, key)
  {
    if Outsider(cfg, id, key) {
      assert forall i | 0 <= i < |cfg.catalog| :: cfg.catalog[i] in cfg.catalog;
    }
    if !Exempt(cfg, id, key) {
      forall entry | entry in cfg.catalog
        ensures entry.id != id
      {
        var i :| 0 <= i < |cfg.catalog| && cfg.catalog[i] == entry;
      }
    }
  }

  /** The status of one answer names the first listed outsider, everything listed before it being in order. */
  lemma {:induction false} ConflictIsFirst(cfg: Config, key: Key, hs: seq<Holder>)
    requires cfg.table != []
    ensures HoldersStatus(cfg, key, hs) == Clear <==> forall i | 0 <= i < |hs| :: HolderValid(hs[i]) && !Outsider(cfg, hs[i].id, key)
    ensures forall k, id :: HoldersStatus(cfg, key, hs) == Conflict(k, id) <==>
              k == key && exists i :: 0 <= i < |hs| && FirstOutsider(cfg, key, hs, i) && hs[i].id == id
    decreases |hs|
  {
    if hs != [] {
      var front, last := hs[..|hs| - 1], hs[|hs| - 1];
      ConflictIsFirst(cfg, key, front);
      OutsiderIsNotExempt(cfg, last.id, key);
      FirstOutsiderStep(cfg, key, hs);
    }
  }

  /** The status of all answers is that of the first one in trouble, if any is. */
  lemma {:induction false} StatusIsFirst(cfg: Config, required: seq<Key>, replies: seq<Keyed>)
    requires cfg.table != [] && |replies| <= |required|
    ensures KeysStatus(cfg, required, replies) == Clear <==> forall i | 0 <= i < |replies| :: KeyStatus(cfg, required[i], replies[i]) == Clear
    ensures forall i | 0 <= i < |replies| && KeyStatus(cfg, required[i], replies[i]) != Clear
                       && (forall j | 0 <= j < i :: KeyStatus(cfg, required[j], replies[j]) == Clear) ::
              KeysStatus(cfg, required, replies) == KeyStatus(cfg, required[i], replies[i])
    decreases |replies|
  {
    if replies != [] {
      var n := |replies| - 1;
      StatusIsFirst(cfg, required, replies[..n]);
      assert forall i | 0 <= i < n :: replies[..n][i] == replies[i];
    }
  }

  /** One answer is clear exactly when the key can be asked about, every listed holder is in order and none is an
      outsider, and the daemon calls the key available exactly when it lists nobody. */
  lemma ClearAnswer(cfg: Config, key: Key, reply: Keyed)
    requires cfg.table != []
    ensures KeyStatus(cfg, key, reply) == Clear <==>
              && KeyInRange(key) && |reply.holders| <= MAX_TUPLES && (reply.available <==> reply.holders == [])
              && forall i | 0 <= i < |reply.holders| :: HolderValid(reply.holders[i]) && !Outsider(cfg, reply.holders[i].id, key)
  {
    ConflictIsFirst(cfg, key, reply.holders);
  }

  ghost predicate FirstOutsider(cfg: Config, key: Key, hs: seq<Holder>, i: nat)
    requires cfg.table != [] && i < |hs|
  {
    && HolderValid(hs[i]) && Outsider(cfg, hs[i].id, key)
    && forall j | 0 <= j < i :: HolderValid(hs[j]) && !Outsider(cfg, hs[j].id, key)
  }

  lemma FirstOutsiderStep(cfg: Config, key: Key, hs: seq<Holder>)
    requires cfg.table != [] && hs != []
    ensures var front := hs[..|hs| - 1];
            forall i | 0 <= i < |hs| - 1 :: FirstOutsider(cfg, key, front, i) <==> FirstOutsider(cfg, key, hs, i)
  {
  }

  // ---- status and scan agree -------------------------------------------------

  predicate Empty(s: Scan) { s.rows == [] && s.blocked == [] }

  lemma {:induction false} HoldersAgree(cfg: Config, names: Names, required: seq<Key>, key: Key, hs: seq<Holder>, s: Scan)
    requires cfg.table != []
    requires ScanHolders(cfg, names, required, key, hs, s).Some?
    ensures var end := ScanHolders(cfg, names, required, key, hs, s).value;
            && (Empty(s) ==> HoldersStatus(cfg, key, hs) != Unavailable &&
                             (HoldersStatus(cfg, key, hs) == Clear <==> Empty(end)))
            && (!Empty(s) ==> !Empty(end))
    decreases |hs|
  {
    if hs != [] {
      HoldersAgree(cfg, names, required, key, hs[..|hs| - 1], s);
    }
  }

  /** Whenever the scan succeeds, the status check on the same replies is never
      Unavailable and is Clear exactly when the scan found nothing. */
  lemma {:induction false} StatusAgreesWithScan(cfg: Config, names: Names, required: seq<Key>, replies: seq<Keyed>)
    requires cfg.table != [] && |replies| <= |required|
    requires ScanKeys(cfg, names, required, replies).Some?
    ensures KeysStatus(cfg, required, replies) != Unavailable
    ensures KeysStatus(cfg, required, replies) == Clear <==> Empty(ScanKeys(cfg, names, required, replies).value)
    decreases |replies|
  {
    if replies != [] {
      var n := |replies| - 1;
      StatusAgreesWithScan(cfg, names, required, replies[..n]);
      HoldersAgree(cfg, names, required, required[n], replies[n].holders,
                   ScanKeys(cfg, names, required, replies[..n]).value);
    }
  }

  // ---- what a successful scan found -----------------------------------------

  /** h is a listing that the scan must act on. */
  predicate Listed(cfg: Config, required: seq<Key>, replies: seq<Keyed>, i: nat, h: Holder)
    requires cfg.table != [] && |replies| <= |required|
  {
    i < |replies| && h in replies[i].holders && !Exempt(cfg, h.id, required[i])
  }

  /** Rows have distinct joined identities and are derived from their own active list. */
  ghost predicate RowsDerived(names: Names, required: seq<Key>, rows: seq<ClearRow>) {
    && (forall i, j :: 0 <= i < j < |rows| ==> JoinedId(rows[i].id) != JoinedId(rows[j].id))
    && (forall row <- rows :: row.removals != [] && row == MakeRow(names, required, Holder(row.id, row.active, [])))
  }

  /** h has a row when it has something to clear. */
  ghost predicate HasRow(rows: seq<ClearRow>, required: seq<Key>, h: Holder) {
    Conflicting(h.active, required) != [] ==>
      exists row <- rows :: JoinedId(row.id) == JoinedId(h.id) && row.active == h.active
  }

  ghost predicate ScanExact(cfg: Config, names: Names, required: seq<Key>, replies: seq<Keyed>, s: Scan)
    requires cfg.table != [] && |replies| <= |required|
  {
    && RowsDerived(names, required, s.rows)
    && (forall row <- s.rows :: FromListing(cfg, required, replies, row))
    && (forall i, h :: Listed(cfg, required, replies, i, h) ==> HasRow(s.rows, required, h))
  }

  lemma HasRowGrows(rows: seq<ClearRow>, more: seq<ClearRow>, required: seq<Key>, h: Holder)
    requires HasRow(rows, required, h) && rows <= more
    ensures HasRow(more, required, h)
  {
    if Conflicting(h.active, required) != [] {
      var row :| row in rows && JoinedId(row.id) == JoinedId(h.id) && row.active == h.active;
      assert row in more;
    }
  }

  /** row comes from one of the holders listed for key. */
  ghost predicate FromHolders(cfg: Config, key: Key, hs: seq<Holder>, row: ClearRow)
    requires cfg.table != []
  {
    exists h <- hs :: !Exempt(cfg, h.id, key) && h.id == row.id && h.active == row.active
  }

  lemma HolderExact(cfg: Config, names: Names, required: seq<Key>, key: Key, h: Holder, s: Scan)
    requires cfg.table != []
    requires ScanHolder(cfg, names, required, key, h, s).Some?
    requires RowsDerived(names, required, s.rows)
    ensures var end := ScanHolder(cfg, names, required, key, h, s).value;
            && RowsDerived(names, required, end.rows)
            && s.rows <= end.rows
            && (forall row <- end.rows :: row in s.rows || (!Exempt(cfg, h.id, key) && row.id == h.id && row.active == h.active))
            && (!Exempt(cfg, h.id, key) ==> HasRow(end.rows, required, h))
  {
    if !Exempt(cfg, h.id, key) {
      var end := ScanHolder(cfg, names, required, key, h, s).value;
      match FindRow(s.rows, JoinedId(h.id)) {
        case Some(i) =>
          assert s.rows[i] in end.rows;
        case None =>
          var row := MakeRow(names, required, h);
          if row.removals != [] {
            assert end.rows == s.rows + [row];
            assert end.rows[|s.rows|] == row;
          }
      }
    }
  }

  /** Fold invariant inside one reply. */
  lemma {:induction false} HoldersExact(cfg: Config, names: Names, required: seq<Key>, key: Key, hs: seq<Holder>, s: Scan)
    requires cfg.table != []
    requires ScanHolders(cfg, names, required, key, hs, s).Some?
    requires RowsDerived(names, required, s.rows)
    ensures var end := ScanHolders(cfg, names, required, key, hs, s).value;
            && RowsDerived(names, required, end.rows)
            && s.rows <= end.rows
            && (forall row <- end.rows :: row in s.rows || FromHolders(cfg, key, hs, row))
            && (forall h <- hs :: !Exempt(cfg, h.id, key) ==> HasRow(end.rows, required, h))
    decreases |hs|
  {
    if hs != [] {
      var front, last := hs[..|hs| - 1], hs[|hs| - 1];
      HoldersExact(cfg, names, required, key, front, s);
      var mid := ScanHolders(cfg, names, required, key, front, s).value;
      HolderExact(cfg, names, required, key, last, mid);
      var end := ScanHolders(cfg, names, required, key, hs, s).value;
      assert last in hs;
      forall row <- end.rows
        ensures row in s.rows || FromHolders(cfg, key, hs, row)
      {
        if row in mid.rows && row !in s.rows {
          var h :| h in front && !Exempt(cfg, h.id, key) && h.id == row.id && h.active == row.active;
          assert h in hs;
        }
      }
      forall h <- hs | !Exempt(cfg, h.id, key)
        ensures HasRow(end.rows, required, h)
      {
        if h != last {
          assert h in front;
          HasRowGrows(mid.rows, end.rows, required, h);
        }
      }
    }
  }

  /** A row is traced back to some listing of its action. */
  ghost predicate FromListing(cfg: Config, required: seq<Key>, replies: seq<Keyed>, row: ClearRow)
    requires cfg.table != [] && |replies| <= |required|
  {
    exists i, h :: Listed(cfg, required, replies, i, h) && h.id == row.id && h.active == row.active
  }

  lemma {:induction false} ScanIsExact(cfg: Config, names: Names, required: seq<Key>, replies: seq<Keyed>)
    requires cfg.table != [] && |replies| <= |required|
    requires ScanKeys(cfg, names, required, replies).Some?
    ensures ScanExact(cfg, names, required, replies, ScanKeys(cfg, names, required, replies).value)
    decreases |replies|
  {
    if replies != [] {
      var n := |replies| - 1;
      ScanIsExact(cfg, names, required, replies[..n]);
      var before := ScanKeys(cfg, names, required, replies[..n]).value;
      HoldersExact(cfg, names, required, required[n], replies[n].holders, before);
      ReplyExact(cfg, names, required, replies, before, ScanKeys(cfg, names, required, replies).value);
    }
  }

  lemma ListingGrows(cfg: Config, required: seq<Key>, replies: seq<Keyed>, n: nat, row: ClearRow)
    requires cfg.table != [] && n <= |replies| <= |required|
    requires FromListing(cfg, required, replies[..n], row)
    ensures FromListing(cfg, required, replies, row)
  {
    var i, h :| Listed(cfg, required, replies[..n], i, h) && h.id == row.id && h.active == row.active;
    assert Listed(cfg, required, replies, i, h);
  }

  lemma HolderIsListing(cfg: Config, required: seq<Key>, replies: seq<Keyed>, n: nat, row: ClearRow)
    requires cfg.table != [] && n < |replies| <= |required|
    requires FromHolders(cfg, required[n], replies[n].holders, row)
    ensures FromListing(cfg, required, replies, row)
  {
    var h :| h in replies[n].holders && !Exempt(cfg, h.id, required[n]) && h.id == row.id && h.active == row.active;
    assert Listed(cfg, required, replies, n, h);
  }

  lemma ReplyExact(cfg: Config, names: Names, required: seq<Key>, replies: seq<Keyed>, before: Scan, after: Scan)
    requires cfg.table != [] && |replies| <= |required| && replies != []
    requires ScanExact(cfg, names, required, replies[..|replies| - 1], before)
    requires RowsDerived(names, required, after.rows) && before.rows <= after.rows
    requires var n := |replies| - 1;
             && (forall row <- after.rows :: row in before.rows || FromHolders(cfg, required[n], replies[n].holders, row))
             && (forall h <- replies[n].holders :: !Exempt(cfg, h.id, required[n]) ==> HasRow(after.rows, required, h))
    ensures ScanExact(cfg, names, required, replies, after)
  {
    var n := |replies| - 1;
    forall row | row in after.rows
      ensures FromListing(cfg, required, replies, row)
    {
      if row in before.rows {
        ListingGrows(cfg, required, replies, n, row);
      } else {
        HolderIsListing(cfg, required, replies, n, row);
      }
    }
    forall i: nat, h | Listed(cfg, required, replies, i, h)
      ensures HasRow(after.rows, required, h)
    {
      if i < n {
        assert Listed(cfg, required, replies[..n], i, h);
        HasRowGrows(before.rows, after.rows, required, h);
      }
    }
  }

  // ---- the verdict of a successful scan -----------------------------------------

  /** The holder has one of the required keys. */
  ghost predicate HoldsRequired(h: Holder, required: seq<Key>) {
    exists k :: k in h.active && k in required
  }

  lemma HoldsRequiredIs(h: Holder, required: seq<Key>)
    ensures Conflicting(h.active, required) != [] <==> HoldsRequired(h, required)
  {
    var active := h.active;
    var hit := Conflicting(active, required);
    ClearSplits(active, required);
    FilterMembers((k: Key) => k !in required, active);
    if hit != [] {
      var k := hit[0];
      assert k in Conflicting(active, required);
      assert k in active && k !in Remainder(active, required);
    }
  }

  /** An outsider listed by the i-th answer. */
  ghost predicate ListsOutsider(cfg: Config, required: seq<Key>, replies: seq<Keyed>, i: nat, h: Holder)
    requires cfg.table != [] && |replies| <= |required|
  {
    i < |replies| && h in replies[i].holders && Outsider(cfg, h.id, required[i])
  }

  /** Some listed outsider has a required key, and which; and some listed outsider has none. */
  ghost predicate SomeToClear(cfg: Config, required: seq<Key>, replies: seq<Keyed>)
    requires cfg.table != [] && |replies| <= |required|
  {
    exists i, h :: ListsOutsider(cfg, required, replies, i, h) && HoldsRequired(h, required)
  }

  ghost predicate SomeWithout(cfg: Config, required: seq<Key>, replies: seq<Keyed>)
    requires cfg.table != [] && |replies| <= |required|
  {
    exists i, h :: ListsOutsider(cfg, required, replies, i, h) && !HoldsRequired(h, required)
  }

  /** The rows are the listed outsiders with a required key: every row is one, with its list as it was
      answered, and every one has a row under its joined identity with that list. */
  ghost predicate RowsAreHolders(cfg: Config, required: seq<Key>, replies: seq<Keyed>, rows: seq<ClearRow>)
    requires cfg.table != [] && |replies| <= |required|
  {
    && (forall row <- rows :: exists i, h ::
          ListsOutsider(cfg, required, replies, i, h) && HoldsRequired(h, required) && h.id == row.id && h.active == row.active)
    && (forall i, h | ListsOutsider(cfg, required, replies, i, h) && HoldsRequired(h, required) ::
          exists row <- rows :: JoinedId(row.id) == JoinedId(h.id) && row.active == h.active)
  }

  /** One of the holders, not exempt, has nothing to clear. */
  ghost predicate SomeClearless(cfg: Config, key: Key, hs: seq<Holder>, required: seq<Key>)
    requires cfg.table != []
  {
    exists h <- hs :: !Exempt(cfg, h.id, key) && Conflicting(h.active, required) == []
  }

  lemma HolderBlocked(cfg: Config, names: Names, required: seq<Key>, key: Key, h: Holder, s: Scan)
    requires cfg.table != [] && RowsDerived(names, required, s.rows)
    requires ScanHolder(cfg, names, required, key, h, s).Some?
    ensures ScanHolder(cfg, names, required, key, h, s).value.blocked != [] <==>
              s.blocked != [] || (!Exempt(cfg, h.id, key) && Conflicting(h.active, required) == [])
  {
    match FindRow(s.rows, JoinedId(h.id)) {
      case Some(i) => assert s.rows[i] in s.rows;
      case None =>
    }
  }

  lemma {:induction false} HoldersBlocked(cfg: Config, names: Names, required: seq<Key>, key: Key, hs: seq<Holder>, s: Scan)
    requires cfg.table != [] && RowsDerived(names, required, s.rows)
    requires ScanHolders(cfg, names, required, key, hs, s).Some?
    ensures ScanHolders(cfg, names, required, key, hs, s).value.blocked != [] <==>
              s.blocked != [] || SomeClearless(cfg, key, hs, required)
    decreases |hs|
  {
    if hs != [] {
      var front, last := hs[..|hs| - 1], hs[|hs| - 1];
      HoldersBlocked(cfg, names, required, key, front, s);
      HoldersExact(cfg, names, required, key, front, s);
      HolderBlocked(cfg, names, required, key, last, ScanHolders(cfg, names, required, key, front, s).value);
      assert hs == front + [last];
    }
  }

  lemma {:induction false} BlockedExact(cfg: Config, names: Names, required: seq<Key>, replies: seq<Keyed>)
    requires cfg.table != [] && |replies| <= |required| && ScanKeys(cfg, names, required, replies).Some?
    ensures ScanKeys(cfg, names, required, replies).value.blocked != [] <==>
              exists i, h :: Listed(cfg, required, replies, i, h) && Conflicting(h.active, required) == []
    decreases |replies|
  {
    if replies != [] {
      var n := |replies| - 1;
      var front := replies[..n];
      BlockedExact(cfg, names, required, front);
      ScanIsExact(cfg, names, required, front);
      HoldersBlocked(cfg, names, required, required[n], replies[n].holders, ScanKeys(cfg, names, required, front).value);
      ClearlessNext(cfg, required, replies);
    }
  }

  lemma ClearlessNext(cfg: Config, required: seq<Key>, replies: seq<Keyed>)
    requires cfg.table != [] && 0 < |replies| <= |required|
    ensures var n := |replies| - 1;
            (exists i, h :: Listed(cfg, required, replies, i, h) && Conflicting(h.active, required) == []) <==>
              (exists i, h :: Listed(cfg, required, replies[..n], i, h) && Conflicting(h.active, required) == [])
              || SomeClearless(cfg, required[n], replies[n].holders, required)
  {
    var n := |replies| - 1;
    forall i: nat, h
      ensures Listed(cfg, required, replies, i, h) <==>
                Listed(cfg, required, replies[..n], i, h) || (i == n && h in replies[n].holders && !Exempt(cfg, h.id, required[n]))
    {
    }
    if SomeClearless(cfg, required[n], replies[n].holders, required) {
      var h :| h in replies[n].holders && !Exempt(cfg, h.id, required[n]) && Conflicting(h.active, required) == [];
      assert Listed(cfg, required, replies, n, h);
    }
  }

  /** A successful scan has rows exactly when some listed outsider has a required key, and blockers
      exactly when some listed outsider has none. */
  lemma ScanVerdict(cfg: Config, names: Names, required: seq<Key>, replies: seq<Keyed>)
    requires cfg.table != [] && |replies| <= |required| && ScanKeys(cfg, names, required, replies).Some?
    ensures var scan := ScanKeys(cfg, names, required, replies).value;
            && (scan.rows != [] <==> SomeToClear(cfg, required, replies))
            && (scan.blocked != [] <==> SomeWithout(cfg, required, replies))
            && RowsAreHolders(cfg, required, replies, scan.rows)
  {
    var scan := ScanKeys(cfg, names, required, replies).value;
    ScanIsExact(cfg, names, required, replies);
    forall i: nat, h | i < |required|
      ensures ListsOutsider(cfg, required, replies, i, h) <==> Listed(cfg, required, replies, i, h)
      ensures HoldsRequired(h, required) <==> Conflicting(h.active, required) != []
    {
      OutsiderIsNotExempt(cfg, h.id, required[i]);
      HoldsRequiredIs(h, required);
    }
    BlockedExact(cfg, names, required, replies);
    forall row | row in scan.rows
      ensures exists i, h :: ListsOutsider(cfg, required, replies, i, h) && HoldsRequired(h, required) && h.id == row.id && h.active == row.active
    {
      var i, h :| Listed(cfg, required, replies, i, h) && h.id == row.id && h.active == row.active;
      assert ListsOutsider(cfg, required, replies, i, h);
    }
    forall i: nat, h | ListsOutsider(cfg, required, replies, i, h) && HoldsRequired(h, required)
      ensures exists row <- scan.rows :: JoinedId(row.id) == JoinedId(h.id) && row.active == h.active
    {
      assert HasRow(scan.rows, required, h);
    }
    assert scan.rows != [] ==> scan.rows[0] in scan.rows;
  }
}
