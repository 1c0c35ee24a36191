// Whether a scan depends on the order in which the daemon lists holders: exactly
// when two listings contend for one joined identity in the reply that first has
// it for clearing.

module HolderOrder {
  import opened Prelude
  import opened Shortcuts
  import opened ShortcutStore
  import opened HolderScan
  import Lexical
  import Sorting

  /** The same holders and availability for every key, each reply in any order. */
  ghost predicate Reordered(a: seq<Keyed>, b: seq<Keyed>) {
    |a| == |b| &&
    forall i :: 0 <= i < |a| ==> multiset(a[i].holders) == multiset(b[i].holders) && a[i].available == b[i].available
  }

  /** A listing the scan clears something of. */
  predicate Clearing(cfg: Config, required: seq<Key>, replies: seq<Keyed>, i: nat, h: Holder)
    requires cfg.table != [] && |replies| <= |required|
  {
    Listed(cfg, required, replies, i, h) && Conflicting(h.active, required) != []
  }

  /** No earlier reply lists that joined identity with something to clear. */
  ghost predicate FirstFor(cfg: Config, required: seq<Key>, replies: seq<Keyed>, i: nat, joined: string)
    requires cfg.table != [] && |replies| <= |required|
  {
    forall j: nat, h | j < i && Clearing(cfg, required, replies, j, h) :: JoinedId(h.id) != joined
  }

  /** In the first reply that lists a joined identity for clearing, every listing of that
      identity is of one action with one list. */
  ghost predicate Uncontested(cfg: Config, required: seq<Key>, replies: seq<Keyed>)
    requires cfg.table != [] && |replies| <= |required|
  {
    forall i, g, h | Clearing(cfg, required, replies, i, g) && Listed(cfg, required, replies, i, h) && JoinedId(g.id) == JoinedId(h.id) ::
      FirstFor(cfg, required, replies, i, JoinedId(g.id)) ==> h.id == g.id && h.active == g.active
  }

  /** The same rows to clear, and blockers found or not alike. */
  ghost predicate SameFindings(s: Scan, t: Scan) {
    SortRows(s.rows) == SortRows(t.rows) && (s.blocked == [] <==> t.blocked == [])
  }

  /** Whatever the order of holders inside the replies, the scan succeeds and finds the same. */
  ghost predicate OrderInvisible(cfg: Config, names: Names, required: seq<Key>, a: seq<Keyed>)
    requires cfg.table != [] && |a| <= |required| && ScanKeys(cfg, names, required, a).Some?
  {
    forall b | Reordered(a, b) ::
      ScanKeys(cfg, names, required, b).Some? &&
      SameFindings(ScanKeys(cfg, names, required, a).value, ScanKeys(cfg, names, required, b).value)
  }

  lemma SameListings(cfg: Config, required: seq<Key>, a: seq<Keyed>, b: seq<Keyed>, i: nat, h: Holder)
    requires cfg.table != [] && |a| <= |required| && Reordered(a, b)
    ensures Listed(cfg, required, a, i, h) <==> Listed(cfg, required, b, i, h)
    ensures Clearing(cfg, required, a, i, h) <==> Clearing(cfg, required, b, i, h)
  {
    if i < |a| {
      assert h in a[i].holders <==> h in multiset(a[i].holders);
      assert h in b[i].holders <==> h in multiset(b[i].holders);
    }
  }

  lemma RowOf(names: Names, required: seq<Key>, rows: seq<ClearRow>, row: ClearRow)
    requires RowsDerived(names, required, rows) && row in rows
    ensures row == MakeRow(names, required, Holder(row.id, row.active, [])) && Conflicting(row.active, required) != []
  {
  }

  lemma RowsNoDup(names: Names, required: seq<Key>, rows: seq<ClearRow>)
    requires RowsDerived(names, required, rows)
    ensures NoDup(rows)
  {
    forall i, j | 0 <= i < j < |rows|
      ensures rows[i] != rows[j]
    {
      assert JoinedId(rows[i].id) != JoinedId(rows[j].id);
    }
  }

  lemma IdOrder(a: ActionId, b: ActionId, c: ActionId)
    ensures var before := (x: ActionId, y: ActionId) =>
                Lexical.Before(x.component, y.component) ||
                (x.component == y.component && Lexical.Before(x.action, y.action));
            && !before(a, a)
            && (before(a, b) && before(b, c) ==> before(a, c))
            && (before(a, c) ==> before(a, b) || before(b, c))
            && (a == b || before(a, b) || before(b, a))
  {
    Lexical.Irreflexive(a.component);
    Lexical.Irreflexive(a.action);
    Lexical.Total(a.component, b.component);
    Lexical.Total(b.component, c.component);
    Lexical.Total(a.action, b.action);
    Lexical.Total(b.action, c.action);
    if Lexical.Before(a.component, b.component) && Lexical.Before(b.component, c.component) {
      Lexical.Transitive(a.component, b.component, c.component);
    }
    if Lexical.Before(a.action, b.action) && Lexical.Before(b.action, c.action) {
      Lexical.Transitive(a.action, b.action, c.action);
    }
    Lexical.Weak(a.component, b.component, c.component);
    Lexical.Weak(a.action, b.action, c.action);
  }

  lemma RowOrder()
    ensures Sorting.StrictWeak(RowBefore)
  {
    forall x, y, z
      ensures !RowBefore(x, x)
      ensures RowBefore(x, y) && RowBefore(y, z) ==> RowBefore(x, z)
      ensures RowBefore(x, z) ==> RowBefore(x, y) || RowBefore(y, z)
    {
      IdOrder(x.id, y.id, z.id);
    }
  }

  lemma RowsSeparate(names: Names, required: seq<Key>, rows: seq<ClearRow>)
    requires RowsDerived(names, required, rows)
    ensures Sorting.Separates(RowBefore, rows)
  {
    forall x, y | x in rows && y in rows && x != y
      ensures RowBefore(x, y) || RowBefore(y, x)
    {
      var i :| 0 <= i < |rows| && rows[i] == x;
      var j :| 0 <= j < |rows| && rows[j] == y;
      assert i < j || j < i;
      assert JoinedId(x.id) != JoinedId(y.id);
      IdOrder(x.id, y.id, x.id);
    }
  }

  // ---- uncontested: the order is invisible -----------------------------------

  /** A row comes from a listing in the first reply that lists its identity for clearing. */
  ghost predicate FromFirst(cfg: Config, required: seq<Key>, replies: seq<Keyed>, row: ClearRow)
    requires cfg.table != [] && |replies| <= |required|
  {
    exists i, h :: Clearing(cfg, required, replies, i, h) && h.id == row.id && h.active == row.active
                   && FirstFor(cfg, required, replies, i, JoinedId(row.id))
  }

  lemma {:induction false} RowsFromFirst(cfg: Config, names: Names, required: seq<Key>, replies: seq<Keyed>)
    requires cfg.table != [] && |replies| <= |required|
    requires ScanKeys(cfg, names, required, replies).Some?
    ensures forall row <- ScanKeys(cfg, names, required, replies).value.rows :: FromFirst(cfg, required, replies, row)
    decreases |replies|
  {
    if replies != [] {
      var n := |replies| - 1;
      var before := ScanKeys(cfg, names, required, replies[..n]).value;
      RowsFromFirst(cfg, names, required, replies[..n]);
      ScanIsExact(cfg, names, required, replies[..n]);
      ScanIsExact(cfg, names, required, replies);
      HoldersExact(cfg, names, required, required[n], replies[n].holders, before);
      var after := ScanKeys(cfg, names, required, replies).value;
      forall row | row in after.rows
        ensures FromFirst(cfg, required, replies, row)
      {
        if row in before.rows {
          var i, h :| Clearing(cfg, required, replies[..n], i, h) && h.id == row.id && h.active == row.active
                      && FirstFor(cfg, required, replies[..n], i, JoinedId(row.id));
          FirstForGrows(cfg, required, replies, n, i, JoinedId(row.id));
        } else {
          NewRowIsFirst(cfg, names, required, replies, before, after, row);
        }
      }
    }
  }

  lemma FirstForGrows(cfg: Config, required: seq<Key>, replies: seq<Keyed>, n: nat, i: nat, joined: string)
    requires cfg.table != [] && n <= |replies| <= |required| && i <= n
    ensures FirstFor(cfg, required, replies, i, joined) <==> FirstFor(cfg, required, replies[..n], i, joined)
    ensures forall j: nat, h :: j < n ==> (Clearing(cfg, required, replies, j, h) <==> Clearing(cfg, required, replies[..n], j, h))
  {
    assert forall j: nat, h :: j < n ==> (Clearing(cfg, required, replies, j, h) <==> Clearing(cfg, required, replies[..n], j, h));
  }

  lemma NewRowIsFirst(cfg: Config, names: Names, required: seq<Key>, replies: seq<Keyed>, before: Scan, after: Scan, row: ClearRow)
    requires cfg.table != [] && 0 < |replies| <= |required|
    requires ScanExact(cfg, names, required, replies[..|replies| - 1], before) && RowsDerived(names, required, after.rows)
    requires before.rows <= after.rows && row in after.rows && row !in before.rows
    requires FromHolders(cfg, required[|replies| - 1], replies[|replies| - 1].holders, row)
    ensures FromFirst(cfg, required, replies, row)
  {
    var n := |replies| - 1;
    var h :| h in replies[n].holders && !Exempt(cfg, h.id, required[n]) && h.id == row.id && h.active == row.active;
    RowOf(names, required, after.rows, row);
    NothingBefore(cfg, names, required, replies[..n], before, after.rows, row);
    FirstForGrows(cfg, required, replies, n, n, JoinedId(row.id));
    assert Clearing(cfg, required, replies, n, h);
  }

  lemma NothingBefore(cfg: Config, names: Names, required: seq<Key>, replies: seq<Keyed>, before: Scan, rows: seq<ClearRow>, row: ClearRow)
    requires cfg.table != [] && |replies| <= |required|
    requires ScanExact(cfg, names, required, replies, before) && RowsDerived(names, required, rows)
    requires before.rows <= rows && row in rows && row !in before.rows
    ensures FirstFor(cfg, required, replies, |replies|, JoinedId(row.id))
  {
    forall j: nat, g | j < |replies| && Clearing(cfg, required, replies, j, g)
      ensures JoinedId(g.id) != JoinedId(row.id)
    {
      var other := RowFor(cfg, names, required, replies, before, j, g);
      RowStays(before.rows, rows, other);
      DistinctRows(names, required, rows, row, other);
    }
  }

  /** A listing to clear has its row. */
  lemma RowFor(cfg: Config, names: Names, required: seq<Key>, replies: seq<Keyed>, s: Scan, j: nat, g: Holder) returns (row: ClearRow)
    requires cfg.table != [] && |replies| <= |required|
    requires ScanExact(cfg, names, required, replies, s) && Clearing(cfg, required, replies, j, g)
    ensures row in s.rows && JoinedId(row.id) == JoinedId(g.id) && row.active == g.active
  {
    assert HasRow(s.rows, required, g);
    row :| row in s.rows && JoinedId(row.id) == JoinedId(g.id) && row.active == g.active;
  }

  lemma RowStays(rows: seq<ClearRow>, more: seq<ClearRow>, row: ClearRow)
    requires row in rows && rows <= more
    ensures row in more
  {
  }

  lemma DistinctRows(names: Names, required: seq<Key>, rows: seq<ClearRow>, x: ClearRow, y: ClearRow)
    requires RowsDerived(names, required, rows) && x in rows && y in rows
    ensures JoinedId(x.id) == JoinedId(y.id) ==> x == y
  {
    var i :| 0 <= i < |rows| && rows[i] == x;
    var j :| 0 <= j < |rows| && rows[j] == y;
    assert i < j || j < i || i == j;
  }

  /** The first reply to list an identity for clearing is the same one. */
  lemma SameFirst(cfg: Config, required: seq<Key>, a: seq<Keyed>, b: seq<Keyed>, i: nat, h: Holder, j: nat, g: Holder)
    requires cfg.table != [] && |a| <= |required| && Reordered(a, b) && JoinedId(g.id) == JoinedId(h.id)
    requires Clearing(cfg, required, a, i, h) && FirstFor(cfg, required, a, i, JoinedId(h.id))
    requires Clearing(cfg, required, b, j, g) && FirstFor(cfg, required, b, j, JoinedId(g.id))
    ensures i == j
  {
    SameListings(cfg, required, a, b, i, h);
    SameListings(cfg, required, a, b, j, g);
  }

  /** Every row of one scan is a row of the other. */
  lemma RowCarriesOver(cfg: Config, names: Names, required: seq<Key>, a: seq<Keyed>, b: seq<Keyed>, s: Scan, t: Scan, row: ClearRow)
    requires cfg.table != [] && |a| <= |required| && Reordered(a, b) && Uncontested(cfg, required, a)
    requires ScanExact(cfg, names, required, a, s) && ScanExact(cfg, names, required, b, t)
    requires forall r <- s.rows :: FromFirst(cfg, required, a, r)
    requires forall r <- t.rows :: FromFirst(cfg, required, b, r)
    requires row in s.rows
    ensures row in t.rows
  {
    var i: nat, h :| Clearing(cfg, required, a, i, h) && h.id == row.id && h.active == row.active
                && FirstFor(cfg, required, a, i, JoinedId(row.id));
    RowOf(names, required, s.rows, row);
    SameListings(cfg, required, a, b, i, h);
    assert Listed(cfg, required, b, i, h) && HasRow(t.rows, required, h);
    var twin :| twin in t.rows && JoinedId(twin.id) == JoinedId(h.id) && twin.active == h.active;
    var j: nat, g :| Clearing(cfg, required, b, j, g) && g.id == twin.id && g.active == twin.active
                && FirstFor(cfg, required, b, j, JoinedId(twin.id));
    SameListings(cfg, required, a, b, j, g);
    SameFirst(cfg, required, a, b, i, h, j, g);
    RowOf(names, required, t.rows, twin);
  }

  lemma UncontestedReordered(cfg: Config, required: seq<Key>, a: seq<Keyed>, b: seq<Keyed>)
    requires cfg.table != [] && |a| <= |required| && Reordered(a, b) && Uncontested(cfg, required, a)
    ensures Uncontested(cfg, required, b) && Reordered(b, a)
  {
    forall i: nat, h
      ensures Listed(cfg, required, a, i, h) <==> Listed(cfg, required, b, i, h)
      ensures Clearing(cfg, required, a, i, h) <==> Clearing(cfg, required, b, i, h)
    {
      SameListings(cfg, required, a, b, i, h);
    }
  }

  /** The sorted clear rows of two successful scans agree when only the order of holders inside
      the replies differs and no joined identity is contested. */
  lemma ClearRowsCanonical(cfg: Config, names: Names, required: seq<Key>, a: seq<Keyed>, b: seq<Keyed>)
    requires cfg.table != [] && |a| <= |required| && Reordered(a, b)
    requires ScanKeys(cfg, names, required, a).Some? && ScanKeys(cfg, names, required, b).Some?
    requires Uncontested(cfg, required, a)
    ensures SortRows(ScanKeys(cfg, names, required, a).value.rows) == SortRows(ScanKeys(cfg, names, required, b).value.rows)
  {
    var s, t := ScanKeys(cfg, names, required, a).value, ScanKeys(cfg, names, required, b).value;
    ScanIsExact(cfg, names, required, a);
    ScanIsExact(cfg, names, required, b);
    RowsFromFirst(cfg, names, required, a);
    RowsFromFirst(cfg, names, required, b);
    UncontestedReordered(cfg, required, a, b);
    forall row
      ensures row in s.rows <==> row in t.rows
    {
      if row in s.rows { RowCarriesOver(cfg, names, required, a, b, s, t, row); }
      if row in t.rows { RowCarriesOver(cfg, names, required, b, a, t, s, row); }
    }
    RowsNoDup(names, required, s.rows);
    RowsNoDup(names, required, t.rows);
    SameElements(s.rows, t.rows);
    RowOrder();
    RowsSeparate(names, required, s.rows);
    Sorting.SortCanonical(RowBefore, s.rows, t.rows);
  }

  // ---- uncontested: the order does not decide success ------------------------

  /** Where the scan stands before the p-th holder of the i-th reply. */
  ghost predicate Reaches(cfg: Config, names: Names, required: seq<Key>, a: seq<Keyed>, i: nat, p: nat, mid: Scan)
    requires cfg.table != [] && i < |a| <= |required| && p <= |a[i].holders|
  {
    var before := ScanKeys(cfg, names, required, a[..i]);
    before.Some? && ScanHolders(cfg, names, required, required[i], a[i].holders[..p], before.value) == Some(mid)
  }

  /** A successful scan reaches every holder, and gets past it. */
  lemma ReachesHolder(cfg: Config, names: Names, required: seq<Key>, a: seq<Keyed>, i: nat, p: nat) returns (mid: Scan)
    requires cfg.table != [] && i < |a| <= |required| && ScanKeys(cfg, names, required, a).Some? && p < |a[i].holders|
    ensures Reaches(cfg, names, required, a, i, p, mid)
    ensures ScanHolder(cfg, names, required, required[i], a[i].holders[p], mid).Some?
  {
    hide ScanHolder, ScanHolders, ScanKeys;
    PrefixReply(cfg, names, required, a, i);
    var before := ScanKeys(cfg, names, required, a[..i]).value;
    mid := HoldersThrough(cfg, names, required, required[i], a[i].holders, before, p);
  }

  /** A scan of several holders gets past each of them. */
  lemma HoldersThrough(cfg: Config, names: Names, required: seq<Key>, key: Key, hs: seq<Holder>, s: Scan, p: nat) returns (mid: Scan)
    requires cfg.table != [] && p < |hs| && ScanHolders(cfg, names, required, key, hs, s).Some?
    ensures ScanHolders(cfg, names, required, key, hs[..p], s) == Some(mid)
    ensures ScanHolder(cfg, names, required, key, hs[p], mid).Some?
  {
    hide ScanHolder, Conflicting, Exempt, HolderValid;
    HoldersPrefix(cfg, names, required, key, hs, s, p);
    HoldersPrefix(cfg, names, required, key, hs, s, p + 1);
    mid := ScanHolders(cfg, names, required, key, hs[..p], s).value;
    assert hs[..p + 1][..p] == hs[..p] && hs[..p + 1][p] == hs[p];
  }

  /** By then every earlier listing to clear has its row. */
  lemma EarlierHasRow(cfg: Config, names: Names, required: seq<Key>, a: seq<Keyed>, j: nat, q: nat, i: nat, p: nat, mid: Scan)
    requires cfg.table != [] && i < |a| <= |required| && p <= |a[i].holders| && Reaches(cfg, names, required, a, i, p, mid)
    requires (j < i && q < |a[j].holders|) || (j == i && q < p)
    requires Clearing(cfg, required, a, j, a[j].holders[q])
    ensures HasRow(mid.rows, required, a[j].holders[q]) && RowsDerived(names, required, mid.rows)
  {
    var g, hs, before := a[j].holders[q], a[i].holders, ScanKeys(cfg, names, required, a[..i]).value;
    ScanIsExact(cfg, names, required, a[..i]);
    HoldersExact(cfg, names, required, required[i], hs[..p], before);
    if j < i {
      assert Listed(cfg, required, a[..i], j, g);
      HasRowGrows(before.rows, mid.rows, required, g);
    } else {
      assert hs[..p][q] == g;
    }
  }

  /** In a successful scan a listing agrees with every earlier listing to clear of its joined identity. */
  lemma EarlierMatches(cfg: Config, names: Names, required: seq<Key>, a: seq<Keyed>, j: nat, q: nat, i: nat, p: nat)
    requires cfg.table != [] && i < |a| <= |required| && ScanKeys(cfg, names, required, a).Some?
    requires j < i || (j == i && q < p)
    requires q < |a[j].holders| && p < |a[i].holders|
    requires Clearing(cfg, required, a, j, a[j].holders[q]) && Listed(cfg, required, a, i, a[i].holders[p])
    requires JoinedId(a[j].holders[q].id) == JoinedId(a[i].holders[p].id)
    ensures a[i].holders[p].active == a[j].holders[q].active
  {
    var mid := ReachesHolder(cfg, names, required, a, i, p);
    EarlierHasRow(cfg, names, required, a, j, q, i, p, mid);
    RowDecides(cfg, names, required, required[i], a[j].holders[q], a[i].holders[p], mid);
  }

  /** A listing that finds a row for its joined identity must have that row's list. */
  lemma RowDecides(cfg: Config, names: Names, required: seq<Key>, key: Key, g: Holder, h: Holder, mid: Scan)
    requires cfg.table != [] && RowsDerived(names, required, mid.rows) && HasRow(mid.rows, required, g)
    requires Conflicting(g.active, required) != [] && JoinedId(g.id) == JoinedId(h.id) && !Exempt(cfg, h.id, key)
    requires ScanHolder(cfg, names, required, key, h, mid).Some?
    ensures h.active == g.active
  {
    var row :| row in mid.rows && JoinedId(row.id) == JoinedId(g.id) && row.active == g.active;
    var at := FindRow(mid.rows, JoinedId(h.id));
    if at.Some? {
      DistinctRows(names, required, mid.rows, mid.rows[at.value], row);
    }
  }

  /** In a successful uncontested scan all listings of a joined identity agree, once it is there to clear. */
  lemma ListingsAgree(cfg: Config, names: Names, required: seq<Key>, a: seq<Keyed>, j: nat, g: Holder, i: nat, h: Holder)
    requires cfg.table != [] && i < |a| <= |required| && ScanKeys(cfg, names, required, a).Some?
    requires Uncontested(cfg, required, a) && j <= i && JoinedId(g.id) == JoinedId(h.id)
    requires Clearing(cfg, required, a, j, g) && Listed(cfg, required, a, i, h)
    ensures h.active == g.active
  {
    var q :| 0 <= q < |a[j].holders| && a[j].holders[q] == g;
    var p :| 0 <= p < |a[i].holders| && a[i].holders[p] == h;
    if j < i {
      EarlierMatches(cfg, names, required, a, j, q, i, p);
    } else if !FirstFor(cfg, required, a, i, JoinedId(g.id)) {
      var k: nat, f :| k < i && Clearing(cfg, required, a, k, f) && JoinedId(f.id) == JoinedId(g.id);
      var r :| 0 <= r < |a[k].holders| && a[k].holders[r] == f;
      EarlierMatches(cfg, names, required, a, k, r, i, p);
      EarlierMatches(cfg, names, required, a, k, r, i, q);
    }
  }

  /** A row built from the listings so far comes from a listing to clear, no later than this reply. */
  lemma RowTraced(cfg: Config, names: Names, required: seq<Key>, b: seq<Keyed>, i: nat, m: nat, before: Scan, mid: Scan, row: ClearRow)
    returns (j: nat, g: Holder)
    requires cfg.table != [] && i < |b| <= |required| && m <= |b[i].holders|
    requires ScanExact(cfg, names, required, b[..i], before) && RowsDerived(names, required, mid.rows) && row in mid.rows
    requires row in before.rows || FromHolders(cfg, required[i], b[i].holders[..m], row)
    ensures j <= i && Clearing(cfg, required, b, j, g) && g.id == row.id && g.active == row.active
  {
    RowOf(names, required, mid.rows, row);
    if row in before.rows {
      assert FromListing(cfg, required, b[..i], row);
      j, g :| Listed(cfg, required, b[..i], j, g) && g.id == row.id && g.active == row.active;
    } else {
      j := i;
      g :| g in b[i].holders[..m] && !Exempt(cfg, g.id, required[i]) && g.id == row.id && g.active == row.active;
    }
  }

  /** One more holder of a reordered reply is no obstacle. */
  lemma HolderSucceeds(cfg: Config, names: Names, required: seq<Key>, a: seq<Keyed>, b: seq<Keyed>, i: nat, m: nat, before: Scan, mid: Scan)
    requires cfg.table != [] && i < |a| <= |required| && Reordered(a, b) && m < |b[i].holders|
    requires ScanKeys(cfg, names, required, a).Some? && Uncontested(cfg, required, a)
    requires ScanKeys(cfg, names, required, b[..i]) == Some(before)
    requires ScanHolders(cfg, names, required, required[i], b[i].holders[..m], before) == Some(mid)
    ensures ScanHolder(cfg, names, required, required[i], b[i].holders[m], mid).Some?
  {
    var h, key := b[i].holders[m], required[i];
    ReorderedValid(cfg, names, required, a, b, i, m);
    if !Exempt(cfg, h.id, key) {
      assert Listed(cfg, required, b, i, h);
      SameListings(cfg, required, a, b, i, h);
      ScanIsExact(cfg, names, required, b[..i]);
      HoldersExact(cfg, names, required, key, b[i].holders[..m], before);
      var at := FindRow(mid.rows, JoinedId(h.id));
      if at.Some? {
        var j, g := RowTraced(cfg, names, required, b, i, m, before, mid, mid.rows[at.value]);
        SameListings(cfg, required, a, b, j, g);
        ListingsAgree(cfg, names, required, a, j, g, i, h);
      } else if Conflicting(h.active, required) != [] {
        RoomForRow(cfg, names, required, a, b, i, m, before, mid);
      }
    }
  }

  lemma ReorderedValid(cfg: Config, names: Names, required: seq<Key>, a: seq<Keyed>, b: seq<Keyed>, i: nat, m: nat)
    requires cfg.table != [] && i < |a| <= |required| && Reordered(a, b) && m < |b[i].holders|
    requires ScanKeys(cfg, names, required, a).Some?
    ensures HolderValid(b[i].holders[m])
  {
    var h := b[i].holders[m];
    assert h in multiset(b[i].holders) && h in multiset(a[i].holders);
    var p :| 0 <= p < |a[i].holders| && a[i].holders[p] == h;
    AllValid(cfg, names, required, a, i, p);
  }

  /** The identities the rows are keyed by. */
  function Joined(rows: seq<ClearRow>): seq<string> {
    seq(|rows|, i requires 0 <= i < |rows| => JoinedId(rows[i].id))
  }

  /** A reordered scan never has more rows than the scan that succeeded. */
  lemma RoomForRow(cfg: Config, names: Names, required: seq<Key>, a: seq<Keyed>, b: seq<Keyed>, i: nat, m: nat, before: Scan, mid: Scan)
    requires cfg.table != [] && i < |a| <= |required| && Reordered(a, b) && m < |b[i].holders|
    requires ScanKeys(cfg, names, required, a).Some?
    requires ScanExact(cfg, names, required, b[..i], before) && RowsDerived(names, required, mid.rows)
    requires forall row <- mid.rows :: row in before.rows || FromHolders(cfg, required[i], b[i].holders[..m], row)
    requires Clearing(cfg, required, a, i, b[i].holders[m]) && FindRow(mid.rows, JoinedId(b[i].holders[m].id)) == None
    ensures |mid.rows| + 1 <= MAX_TUPLES
  {
    hide ScanKeys, ScanExact, FromHolders, Clearing, RowsDerived;
    var last, full := JoinedId(b[i].holders[m].id), ScanKeys(cfg, names, required, a).value;
    JoinedBy(cfg, names, required, a, i, b[i].holders[m]);
    forall row | row in mid.rows
      ensures JoinedId(row.id) in Joined(full.rows)
    {
      var j, g := RowTraced(cfg, names, required, b, i, m, before, mid, row);
      SameListings(cfg, required, a, b, j, g);
      JoinedBy(cfg, names, required, a, j, g);
    }
    OneMore(names, required, mid.rows, last, Joined(full.rows));
    RowsCapped(cfg, names, required, a);
  }

  /** Rows and one further identity, all among those of a list, are no more than it has. */
  lemma OneMore(names: Names, required: seq<Key>, rows: seq<ClearRow>, last: string, all: seq<string>)
    requires RowsDerived(names, required, rows) && last in all
    requires forall row <- rows :: JoinedId(row.id) in all && JoinedId(row.id) != last
    ensures |rows| + 1 <= |all|
  {
    var mine := Joined(rows) + [last];
    assert forall n | 0 <= n < |rows| :: mine[n] == JoinedId(rows[n].id) && rows[n] in rows;
    Pigeonhole(mine, all);
  }

  lemma JoinedBy(cfg: Config, names: Names, required: seq<Key>, a: seq<Keyed>, j: nat, g: Holder)
    requires cfg.table != [] && |a| <= |required| && ScanKeys(cfg, names, required, a).Some? && Clearing(cfg, required, a, j, g)
    ensures JoinedId(g.id) in Joined(ScanKeys(cfg, names, required, a).value.rows)
  {
    var full := ScanKeys(cfg, names, required, a).value;
    ScanIsExact(cfg, names, required, a);
    var row := RowFor(cfg, names, required, a, full, j, g);
    var n :| 0 <= n < |full.rows| && full.rows[n] == row;
    assert Joined(full.rows)[n] == JoinedId(g.id);
  }

  lemma {:induction false} RowsCapped(cfg: Config, names: Names, required: seq<Key>, replies: seq<Keyed>)
    requires cfg.table != [] && |replies| <= |required| && ScanKeys(cfg, names, required, replies).Some?
    ensures |ScanKeys(cfg, names, required, replies).value.rows| <= MAX_TUPLES
    decreases |replies|
  {
    if replies != [] {
      var n := |replies| - 1;
      RowsCapped(cfg, names, required, replies[..n]);
      HoldersCapped(cfg, names, required, required[n], replies[n].holders, ScanKeys(cfg, names, required, replies[..n]).value);
    }
  }

  lemma {:induction false} HoldersCapped(cfg: Config, names: Names, required: seq<Key>, key: Key, hs: seq<Holder>, s: Scan)
    requires cfg.table != [] && |s.rows| <= MAX_TUPLES && ScanHolders(cfg, names, required, key, hs, s).Some?
    ensures |ScanHolders(cfg, names, required, key, hs, s).value.rows| <= MAX_TUPLES
    decreases |hs|
  {
    if hs != [] {
      HoldersCapped(cfg, names, required, key, hs[..|hs| - 1], s);
    }
  }

  /** The holders of a reordered reply go through one after the other. */
  lemma {:induction false} ReplySucceeds(cfg: Config, names: Names, required: seq<Key>, a: seq<Keyed>, b: seq<Keyed>, i: nat, m: nat, before: Scan)
    requires cfg.table != [] && i < |a| <= |required| && Reordered(a, b) && m <= |b[i].holders|
    requires ScanKeys(cfg, names, required, a).Some? && Uncontested(cfg, required, a)
    requires ScanKeys(cfg, names, required, b[..i]) == Some(before)
    ensures ScanHolders(cfg, names, required, required[i], b[i].holders[..m], before).Some?
  {
    if m > 0 {
      ReplySucceeds(cfg, names, required, a, b, i, m - 1, before);
      var upTo := b[i].holders[..m];
      assert upTo[..m - 1] == b[i].holders[..m - 1] && upTo[m - 1] == b[i].holders[m - 1];
      HolderSucceeds(cfg, names, required, a, b, i, m - 1, before,
                     ScanHolders(cfg, names, required, required[i], b[i].holders[..m - 1], before).value);
    }
  }

  /** Every reordering of an uncontested successful scan succeeds. */
  lemma {:induction false} ReorderedSucceeds(cfg: Config, names: Names, required: seq<Key>, a: seq<Keyed>, b: seq<Keyed>, n: nat)
    requires cfg.table != [] && n <= |a| <= |required| && Reordered(a, b)
    requires ScanKeys(cfg, names, required, a).Some? && Uncontested(cfg, required, a)
    ensures ScanKeys(cfg, names, required, b[..n]).Some?
  {
    if n > 0 {
      hide Uncontested, ScanKey, ScanHolders;
      var i := n - 1;
      ReorderedSucceeds(cfg, names, required, a, b, i);
      var before := ScanKeys(cfg, names, required, b[..i]).value;
      ReplySucceeds(cfg, names, required, a, b, i, |b[i].holders|, before);
      assert b[i].holders[..|b[i].holders|] == b[i].holders;
      KeySucceeds(cfg, names, required, a, b, i, before);
      assert b[..n][..i] == b[..i] && b[..n][i] == b[i];
    }
  }

  lemma KeySucceeds(cfg: Config, names: Names, required: seq<Key>, a: seq<Keyed>, b: seq<Keyed>, i: nat, before: Scan)
    requires cfg.table != [] && i < |a| <= |required| && Reordered(a, b) && ScanKeys(cfg, names, required, a).Some?
    requires ScanHolders(cfg, names, required, required[i], b[i].holders, before).Some?
    ensures ScanKey(cfg, names, required, required[i], b[i], before).Some?
  {
    ReplyPasses(cfg, names, required, a, i);
    assert |multiset(a[i].holders)| == |a[i].holders| && |multiset(b[i].holders)| == |b[i].holders|;
  }

  /** What a successful scan asks of each reply as a whole. */
  lemma ReplyPasses(cfg: Config, names: Names, required: seq<Key>, a: seq<Keyed>, i: nat)
    requires cfg.table != [] && i < |a| <= |required| && ScanKeys(cfg, names, required, a).Some?
    ensures KeyInRange(required[i]) && |a[i].holders| <= MAX_TUPLES && (a[i].holders == []) == a[i].available
  {
    KeysPrefix(cfg, names, required, a, i + 1);
    assert a[..i + 1][..i] == a[..i] && a[..i + 1][i] == a[i];
    KeysPrefix(cfg, names, required, a, i);
  }

  /** Every listing has something to clear. */
  ghost predicate AllClearing(cfg: Config, required: seq<Key>, replies: seq<Keyed>)
    requires cfg.table != [] && |replies| <= |required|
  {
    forall i, h | Listed(cfg, required, replies, i, h) :: Clearing(cfg, required, replies, i, h)
  }

  lemma AllClearingStep(cfg: Config, required: seq<Key>, replies: seq<Keyed>)
    requires cfg.table != [] && 0 < |replies| <= |required|
    ensures var n := |replies| - 1;
            AllClearing(cfg, required, replies) <==>
              AllClearing(cfg, required, replies[..n]) && AllConflicting(cfg, required, required[n], replies[n].holders)
  {
    var n := |replies| - 1;
    assert forall i: nat, h | i < n :: Listed(cfg, required, replies[..n], i, h) <==> Listed(cfg, required, replies, i, h);
    assert forall h :: Listed(cfg, required, replies, n, h) <==> h in replies[n].holders && !Exempt(cfg, h.id, required[n]);
  }

  predicate AllConflicting(cfg: Config, required: seq<Key>, key: Key, hs: seq<Holder>)
    requires cfg.table != []
  {
    forall h <- hs | !Exempt(cfg, h.id, key) :: Conflicting(h.active, required) != []
  }

  /** A successful scan has no blocker exactly when every listing has something to clear. */
  lemma {:induction false} BlockedExactly(cfg: Config, names: Names, required: seq<Key>, replies: seq<Keyed>)
    requires cfg.table != [] && |replies| <= |required| && ScanKeys(cfg, names, required, replies).Some?
    ensures ScanKeys(cfg, names, required, replies).value.blocked == [] <==> AllClearing(cfg, required, replies)
    decreases |replies|
  {
    if replies != [] {
      hide AllClearing, AllConflicting, ScanHolders, RowsDerived, HasRow, FromListing;
      var n := |replies| - 1;
      BlockedExactly(cfg, names, required, replies[..n]);
      ScanIsExact(cfg, names, required, replies[..n]);
      HoldersBlocked(cfg, names, required, required[n], replies[n].holders, ScanKeys(cfg, names, required, replies[..n]).value);
      AllClearingStep(cfg, required, replies);
    }
  }

  lemma {:induction false} HoldersBlocked(cfg: Config, names: Names, required: seq<Key>, key: Key, hs: seq<Holder>, s: Scan)
    requires cfg.table != [] && RowsDerived(names, required, s.rows) && ScanHolders(cfg, names, required, key, hs, s).Some?
    ensures ScanHolders(cfg, names, required, key, hs, s).value.blocked == [] <==>
              s.blocked == [] && AllConflicting(cfg, required, key, hs)
    decreases |hs|
  {
    if hs != [] {
      hide ScanHolder, RowsDerived, HasRow, FromHolders, Exempt, Conflicting, AllConflicting;
      var front, last := hs[..|hs| - 1], hs[|hs| - 1];
      HoldersBlocked(cfg, names, required, key, front, s);
      HoldersExact(cfg, names, required, key, front, s);
      AllConflictingStep(cfg, required, key, hs);
      HolderBlocked(cfg, names, required, key, last, ScanHolders(cfg, names, required, key, front, s).value);
    }
  }

  lemma AllConflictingStep(cfg: Config, required: seq<Key>, key: Key, hs: seq<Holder>)
    requires cfg.table != [] && hs != []
    ensures var n := |hs| - 1;
            AllConflicting(cfg, required, key, hs) <==>
              AllConflicting(cfg, required, key, hs[..n]) && (Exempt(cfg, hs[n].id, key) || Conflicting(hs[n].active, required) != [])
  {
    assert hs == hs[..|hs| - 1] + [hs[|hs| - 1]];
  }

  lemma HolderBlocked(cfg: Config, names: Names, required: seq<Key>, key: Key, h: Holder, s: Scan)
    requires cfg.table != [] && RowsDerived(names, required, s.rows) && ScanHolder(cfg, names, required, key, h, s).Some?
    ensures ScanHolder(cfg, names, required, key, h, s).value.blocked == [] <==>
              s.blocked == [] && (Exempt(cfg, h.id, key) || Conflicting(h.active, required) != [])
  {
    var at := FindRow(s.rows, JoinedId(h.id));
    if at.Some? {
      RowOf(names, required, s.rows, s.rows[at.value]);
    }
  }

  /** Two scans of the same listings have blockers alike. */
  lemma BlockedAlike(cfg: Config, names: Names, required: seq<Key>, a: seq<Keyed>, b: seq<Keyed>)
    requires cfg.table != [] && |a| <= |required| && Reordered(a, b)
    requires ScanKeys(cfg, names, required, a).Some? && ScanKeys(cfg, names, required, b).Some?
    ensures ScanKeys(cfg, names, required, a).value.blocked == [] <==> ScanKeys(cfg, names, required, b).value.blocked == []
  {
    BlockedExactly(cfg, names, required, a);
    BlockedExactly(cfg, names, required, b);
    hide ScanKeys;
    forall i: nat, h
      ensures Listed(cfg, required, a, i, h) <==> Listed(cfg, required, b, i, h)
      ensures Clearing(cfg, required, a, i, h) <==> Clearing(cfg, required, b, i, h)
    {
      SameListings(cfg, required, a, b, i, h);
    }
  }

  // ---- contested: some order shows ---------------------------------------------

  /** Two holders a scan cannot tell apart but for the id: same joined identity, same keys. */
  predicate Twins(cfg: Config, key: Key, g: Holder, h: Holder)
    requires cfg.table != []
  {
    && JoinedId(g.id) == JoinedId(h.id) && g.active == h.active
    && HolderValid(g) == HolderValid(h) && Exempt(cfg, g.id, key) == Exempt(cfg, h.id, key)
  }

  /** Rows that agree but for the ids. */
  ghost predicate Alike(s: seq<ClearRow>, t: seq<ClearRow>) {
    |s| == |t| && forall i | 0 <= i < |s| :: JoinedId(s[i].id) == JoinedId(t[i].id) && s[i].active == t[i].active
  }

  ghost predicate ScansAlike(s: Option<Scan>, t: Option<Scan>) {
    (s.Some? <==> t.Some?) && (s.Some? ==> Alike(s.value.rows, t.value.rows))
  }

  lemma {:induction false} FindAlike(s: seq<ClearRow>, t: seq<ClearRow>, joined: string)
    requires Alike(s, t)
    ensures FindRow(s, joined) == FindRow(t, joined)
  {
    if s != [] {
      FindAlike(s[..|s| - 1], t[..|t| - 1], joined);
    }
  }

  lemma StepAlike(cfg: Config, names: Names, required: seq<Key>, key: Key, g: Holder, h: Holder, s: Scan, t: Scan)
    requires cfg.table != [] && Twins(cfg, key, g, h) && Alike(s.rows, t.rows)
    ensures ScansAlike(ScanHolder(cfg, names, required, key, g, s), ScanHolder(cfg, names, required, key, h, t))
  {
    FindAlike(s.rows, t.rows, JoinedId(g.id));
  }

  lemma {:induction false} HoldersAlike(cfg: Config, names: Names, required: seq<Key>, key: Key, gs: seq<Holder>, hs: seq<Holder>, s: Scan, t: Scan)
    requires cfg.table != [] && Alike(s.rows, t.rows)
    requires |gs| == |hs| && forall i | 0 <= i < |gs| :: Twins(cfg, key, gs[i], hs[i])
    ensures ScansAlike(ScanHolders(cfg, names, required, key, gs, s), ScanHolders(cfg, names, required, key, hs, t))
    decreases |gs|
  {
    if gs != [] {
      HoldersAlike(cfg, names, required, key, gs[..|gs| - 1], hs[..|hs| - 1], s, t);
      var x, y := ScanHolders(cfg, names, required, key, gs[..|gs| - 1], s), ScanHolders(cfg, names, required, key, hs[..|hs| - 1], t);
      if x.Some? {
        StepAlike(cfg, names, required, key, gs[|gs| - 1], hs[|hs| - 1], x.value, y.value);
      }
    }
  }

  ghost predicate ReplyAlike(cfg: Config, key: Key, x: Keyed, y: Keyed)
    requires cfg.table != []
  {
    && x.available == y.available && |x.holders| == |y.holders|
    && forall j | 0 <= j < |x.holders| :: Twins(cfg, key, x.holders[j], y.holders[j])
  }

  /** The replies list twins in the same places. */
  ghost predicate RepliesAlike(cfg: Config, required: seq<Key>, a: seq<Keyed>, b: seq<Keyed>)
    requires cfg.table != [] && |a| <= |required|
  {
    |a| == |b| && forall i | 0 <= i < |a| :: ReplyAlike(cfg, required[i], a[i], b[i])
  }

  lemma {:induction false} KeysAlike(cfg: Config, names: Names, required: seq<Key>, a: seq<Keyed>, b: seq<Keyed>)
    requires cfg.table != [] && |a| <= |required| && RepliesAlike(cfg, required, a, b)
    ensures ScansAlike(ScanKeys(cfg, names, required, a), ScanKeys(cfg, names, required, b))
    decreases |a|
  {
    if a != [] {
      var n := |a| - 1;
      assert ReplyAlike(cfg, required[n], a[n], b[n]);
      KeysAlike(cfg, names, required, a[..n], b[..n]);
      var x, y := ScanKeys(cfg, names, required, a[..n]), ScanKeys(cfg, names, required, b[..n]);
      if x.Some? {
        HoldersAlike(cfg, names, required, required[n], a[n].holders, b[n].holders, x.value, y.value);
      }
    }
  }

  /** A scan that succeeds succeeds on every prefix, keeps the rows found so far, and saw valid holders only. */
  lemma {:induction false} HoldersPrefix(cfg: Config, names: Names, required: seq<Key>, key: Key, hs: seq<Holder>, s: Scan, m: nat)
    requires cfg.table != [] && m <= |hs| && ScanHolders(cfg, names, required, key, hs, s).Some?
    ensures ScanHolders(cfg, names, required, key, hs[..m], s).Some?
    ensures ScanHolders(cfg, names, required, key, hs[..m], s).value.rows <= ScanHolders(cfg, names, required, key, hs, s).value.rows
    ensures m < |hs| ==> HolderValid(hs[m])
    decreases |hs|
  {
    if m < |hs| {
      HoldersPrefix(cfg, names, required, key, hs[..|hs| - 1], s, if m < |hs| - 1 then m else |hs| - 1);
      assert m < |hs| - 1 ==> hs[..|hs| - 1][..m] == hs[..m] && hs[..|hs| - 1][m] == hs[m];
      assert hs[..|hs| - 1][..|hs| - 1] == hs[..|hs| - 1];
    } else {
      assert hs[..m] == hs;
    }
  }

  lemma {:induction false} KeysPrefix(cfg: Config, names: Names, required: seq<Key>, replies: seq<Keyed>, n: nat)
    requires cfg.table != [] && n <= |replies| <= |required| && ScanKeys(cfg, names, required, replies).Some?
    ensures ScanKeys(cfg, names, required, replies[..n]).Some?
    ensures ScanKeys(cfg, names, required, replies[..n]).value.rows <= ScanKeys(cfg, names, required, replies).value.rows
    decreases |replies|
  {
    if n < |replies| {
      var front := replies[..|replies| - 1];
      KeysStep(cfg, names, required, replies);
      KeysPrefix(cfg, names, required, front, n);
      assert front[..n] == replies[..n];
    } else {
      assert replies[..n] == replies;
    }
  }

  lemma KeysStep(cfg: Config, names: Names, required: seq<Key>, replies: seq<Keyed>)
    requires cfg.table != [] && 0 < |replies| <= |required| && ScanKeys(cfg, names, required, replies).Some?
    ensures var front := replies[..|replies| - 1];
            && ScanKeys(cfg, names, required, front).Some?
            && ScanKeys(cfg, names, required, front).value.rows <= ScanKeys(cfg, names, required, replies).value.rows
  {
    var front := replies[..|replies| - 1];
    HoldersPrefix(cfg, names, required, required[|front|], replies[|front|].holders, ScanKeys(cfg, names, required, front).value, 0);
    assert replies[|front|].holders[..0] == [];
  }

  /** The m-th holder of reply i is the first listing anywhere of its joined identity for clearing. */
  ghost predicate FirstListed(cfg: Config, required: seq<Key>, replies: seq<Keyed>, i: nat, m: nat)
    requires cfg.table != [] && i < |replies| <= |required| && m < |replies[i].holders|
  {
    var h := replies[i].holders[m];
    && Clearing(cfg, required, replies, i, h) && FirstFor(cfg, required, replies, i, JoinedId(h.id))
    && forall j | 0 <= j < m :: JoinedId(replies[i].holders[j].id) == JoinedId(h.id) ==> !Clearing(cfg, required, replies, i, replies[i].holders[j])
  }

  /** The first listing of an identity to clear, in the first reply that has one, becomes its row. */
  lemma FirstListingIsRow(cfg: Config, names: Names, required: seq<Key>, replies: seq<Keyed>, i: nat, m: nat)
    requires cfg.table != [] && i < |replies| <= |required| && m < |replies[i].holders| && ScanKeys(cfg, names, required, replies).Some?
    requires FirstListed(cfg, required, replies, i, m)
    ensures MakeRow(names, required, replies[i].holders[m]) in ScanKeys(cfg, names, required, replies).value.rows
  {
    var hs, key := replies[i].holders, required[i];
    PrefixReply(cfg, names, required, replies, i);
    var before := ScanKeys(cfg, names, required, replies[..i]).value;
    HoldersPrefix(cfg, names, required, key, hs, before, m);
    HoldersPrefix(cfg, names, required, key, hs, before, m + 1);
    var mid := ScanHolders(cfg, names, required, key, hs[..m], before).value;
    NoRowYet(cfg, names, required, replies, i, m, before, mid);
    NewRow(cfg, names, required, key, hs, before, m);
    RowStays(ScanHolders(cfg, names, required, key, hs[..m + 1], before).value.rows,
             ScanHolders(cfg, names, required, key, hs, before).value.rows, MakeRow(names, required, hs[m]));
    RowStays(ScanHolders(cfg, names, required, key, hs, before).value.rows,
             ScanKeys(cfg, names, required, replies).value.rows, MakeRow(names, required, hs[m]));
  }

  /** The scan of one reply of a successful scan succeeds, and its rows stay. */
  lemma PrefixReply(cfg: Config, names: Names, required: seq<Key>, replies: seq<Keyed>, i: nat)
    requires cfg.table != [] && i < |replies| <= |required| && ScanKeys(cfg, names, required, replies).Some?
    ensures ScanKeys(cfg, names, required, replies[..i]).Some?
    ensures var before := ScanKeys(cfg, names, required, replies[..i]).value;
            var next := ScanHolders(cfg, names, required, required[i], replies[i].holders, before);
            next.Some? && next.value.rows <= ScanKeys(cfg, names, required, replies).value.rows
  {
    var upTo := replies[..i + 1];
    assert upTo[..i] == replies[..i] && upTo[i] == replies[i];
    KeysPrefix(cfg, names, required, replies, i + 1);
    KeysPrefix(cfg, names, required, replies, i);
  }

  lemma NewRow(cfg: Config, names: Names, required: seq<Key>, key: Key, hs: seq<Holder>, s: Scan, m: nat)
    requires cfg.table != [] && m < |hs| && ScanHolders(cfg, names, required, key, hs[..m + 1], s).Some?
    requires !Exempt(cfg, hs[m].id, key) && Conflicting(hs[m].active, required) != []
    requires ScanHolders(cfg, names, required, key, hs[..m], s).Some?
    requires FindRow(ScanHolders(cfg, names, required, key, hs[..m], s).value.rows, JoinedId(hs[m].id)) == None
    ensures MakeRow(names, required, hs[m]) in ScanHolders(cfg, names, required, key, hs[..m + 1], s).value.rows
  {
    var upTo := hs[..m + 1];
    assert upTo[..m] == hs[..m] && upTo[m] == hs[m];
  }

  lemma NoRowYet(cfg: Config, names: Names, required: seq<Key>, replies: seq<Keyed>, i: nat, m: nat, before: Scan, mid: Scan)
    requires cfg.table != [] && i < |replies| <= |required| && m < |replies[i].holders|
    requires ScanKeys(cfg, names, required, replies[..i]) == Some(before)
    requires ScanHolders(cfg, names, required, required[i], replies[i].holders[..m], before) == Some(mid)
    requires var h := replies[i].holders[m];
             && FirstFor(cfg, required, replies, i, JoinedId(h.id))
             && forall j | 0 <= j < m :: JoinedId(replies[i].holders[j].id) == JoinedId(h.id) ==> !Clearing(cfg, required, replies, i, replies[i].holders[j])
    ensures FindRow(mid.rows, JoinedId(replies[i].holders[m].id)) == None
  {
    var joined := JoinedId(replies[i].holders[m].id);
    ScanIsExact(cfg, names, required, replies[..i]);
    HoldersExact(cfg, names, required, required[i], replies[i].holders[..m], before);
    FirstForGrows(cfg, required, replies, i, i, joined);
    forall row | row in mid.rows
      ensures JoinedId(row.id) != joined
    {
      RowOf(names, required, mid.rows, row);
      if row in before.rows {
        assert FromListing(cfg, required, replies[..i], row);
        var j: nat, g :| Listed(cfg, required, replies[..i], j, g) && g.id == row.id && g.active == row.active;
        assert Clearing(cfg, required, replies[..i], j, g);
      } else {
        var g :| g in replies[i].holders[..m] && !Exempt(cfg, g.id, required[i]) && g.id == row.id && g.active == row.active;
        var j :| 0 <= j < m && replies[i].holders[j] == g;
        assert Clearing(cfg, required, replies, i, g);
      }
    }
  }

  lemma {:induction false} FirstIndex(cfg: Config, required: seq<Key>, replies: seq<Keyed>, i: nat, joined: string, n: nat) returns (m: nat)
    requires cfg.table != [] && i < |replies| <= |required| && n < |replies[i].holders|
    requires Clearing(cfg, required, replies, i, replies[i].holders[n]) && JoinedId(replies[i].holders[n].id) == joined
    ensures m <= n && Clearing(cfg, required, replies, i, replies[i].holders[m]) && JoinedId(replies[i].holders[m].id) == joined
    ensures forall j | 0 <= j < m :: JoinedId(replies[i].holders[j].id) == joined ==> !Clearing(cfg, required, replies, i, replies[i].holders[j])
  {
    m := 0;
    while !(Clearing(cfg, required, replies, i, replies[i].holders[m]) && JoinedId(replies[i].holders[m].id) == joined)
      invariant m <= n
      invariant forall j | 0 <= j < m :: JoinedId(replies[i].holders[j].id) == joined ==> !Clearing(cfg, required, replies, i, replies[i].holders[j])
      decreases n - m
    {
      m := m + 1;
    }
  }

  lemma AfterFirst(cfg: Config, required: seq<Key>, replies: seq<Keyed>, i: nat, joined: string, m: nat, q: nat)
    requires cfg.table != [] && i < |replies| <= |required| && m < |replies[i].holders| && q < |replies[i].holders|
    requires forall j | 0 <= j < m :: JoinedId(replies[i].holders[j].id) == joined ==> !Clearing(cfg, required, replies, i, replies[i].holders[j])
    requires Clearing(cfg, required, replies, i, replies[i].holders[q]) && JoinedId(replies[i].holders[q].id) == joined
    ensures m <= q
  {
  }

  function Swapped<T>(s: seq<T>, m: nat, q: nat): seq<T>
    requires m < |s| && q < |s|
  {
    s[m := s[q]][q := s[m]]
  }

  lemma SwapPermutes<T>(s: seq<T>, m: nat, q: nat)
    requires m < |s| && q < |s|
    ensures multiset(Swapped(s, m, q)) == multiset(s)
  {
    assert multiset(s[m := s[q]]) == multiset(s) - multiset{s[m]} + multiset{s[q]};
  }

  /** All listings to clear of one joined identity in one reply of a successful scan have the same keys. */
  lemma SameActive(cfg: Config, names: Names, required: seq<Key>, replies: seq<Keyed>, i: nat, g: Holder, h: Holder)
    requires cfg.table != [] && |replies| <= |required| && ScanKeys(cfg, names, required, replies).Some?
    requires Clearing(cfg, required, replies, i, g) && Clearing(cfg, required, replies, i, h) && JoinedId(g.id) == JoinedId(h.id)
    ensures g.active == h.active
  {
    var s := ScanKeys(cfg, names, required, replies).value;
    ScanIsExact(cfg, names, required, replies);
    var x := RowFor(cfg, names, required, replies, s, i, g);
    var y := RowFor(cfg, names, required, replies, s, i, h);
    DistinctRows(names, required, s.rows, x, y);
  }

  lemma AllValid(cfg: Config, names: Names, required: seq<Key>, replies: seq<Keyed>, i: nat, m: nat)
    requires cfg.table != [] && i < |replies| <= |required| && ScanKeys(cfg, names, required, replies).Some?
    requires m < |replies[i].holders|
    ensures HolderValid(replies[i].holders[m])
  {
    PrefixReply(cfg, names, required, replies, i);
    HoldersPrefix(cfg, names, required, required[i], replies[i].holders, ScanKeys(cfg, names, required, replies[..i]).value, m);
  }

  /** Two actions contending for a joined identity: listing the other one first gives other rows. */
  lemma ContestedShows(cfg: Config, names: Names, required: seq<Key>, a: seq<Keyed>, i: nat, m: nat, q: nat)
    requires cfg.table != [] && i < |a| <= |required| && ScanKeys(cfg, names, required, a).Some?
    requires m < q < |a[i].holders| && a[i].holders[m].id != a[i].holders[q].id
    requires FirstListed(cfg, required, a, i, m) && Clearing(cfg, required, a, i, a[i].holders[q])
    requires JoinedId(a[i].holders[m].id) == JoinedId(a[i].holders[q].id)
    ensures !OrderInvisible(cfg, names, required, a)
  {
    var b := a[i := Keyed(Swapped(a[i].holders, m, q), a[i].available)];
    SwapAlike(cfg, names, required, a, i, m, q);
    if ScanKeys(cfg, names, required, b).Some? {
      SwapFirst(cfg, required, a, b, i, m, q);
      SwappedRowsDiffer(cfg, names, required, a, b, i, m);
    }
  }

  /** When different actions come first for one joined identity, the rows differ. */
  lemma SwappedRowsDiffer(cfg: Config, names: Names, required: seq<Key>, a: seq<Keyed>, b: seq<Keyed>, i: nat, m: nat)
    requires cfg.table != [] && i < |a| == |b| <= |required| && ScanKeys(cfg, names, required, a).Some? && ScanKeys(cfg, names, required, b).Some?
    requires m < |a[i].holders| && m < |b[i].holders| && FirstListed(cfg, required, a, i, m) && FirstListed(cfg, required, b, i, m)
    requires JoinedId(a[i].holders[m].id) == JoinedId(b[i].holders[m].id) && a[i].holders[m].id != b[i].holders[m].id
    ensures SortRows(ScanKeys(cfg, names, required, a).value.rows) != SortRows(ScanKeys(cfg, names, required, b).value.rows)
  {
    FirstListingIsRow(cfg, names, required, a, i, m);
    FirstListingIsRow(cfg, names, required, b, i, m);
    ScanIsExact(cfg, names, required, b);
    DifferentRows(names, required, ScanKeys(cfg, names, required, a).value.rows, ScanKeys(cfg, names, required, b).value.rows,
                  a[i].holders[m], b[i].holders[m]);
  }

  lemma DifferentRows(names: Names, required: seq<Key>, s: seq<ClearRow>, t: seq<ClearRow>, g: Holder, h: Holder)
    requires RowsDerived(names, required, t) && JoinedId(g.id) == JoinedId(h.id) && g.id != h.id
    requires MakeRow(names, required, g) in s && MakeRow(names, required, h) in t
    ensures SortRows(s) != SortRows(t)
  {
    var x, y := MakeRow(names, required, g), MakeRow(names, required, h);
    if x in t {
      DistinctRows(names, required, t, x, y);
    }
    Sorting.SortPermutes(RowBefore, s);
    Sorting.SortPermutes(RowBefore, t);
    assert x in SortRows(s) && x !in SortRows(t);
  }

  /** Swapping two listings that contend for an identity gives a reply the scan cannot tell apart but for ids. */
  lemma SwapAlike(cfg: Config, names: Names, required: seq<Key>, a: seq<Keyed>, i: nat, m: nat, q: nat)
    requires cfg.table != [] && i < |a| <= |required| && ScanKeys(cfg, names, required, a).Some?
    requires m < q < |a[i].holders| && JoinedId(a[i].holders[m].id) == JoinedId(a[i].holders[q].id)
    requires Clearing(cfg, required, a, i, a[i].holders[m]) && Clearing(cfg, required, a, i, a[i].holders[q])
    ensures var b := a[i := Keyed(Swapped(a[i].holders, m, q), a[i].available)];
            RepliesAlike(cfg, required, a, b) && Reordered(a, b)
  {
    var hs := a[i].holders;
    var b := a[i := Keyed(Swapped(hs, m, q), a[i].available)];
    SameActive(cfg, names, required, a, i, hs[m], hs[q]);
    AllValid(cfg, names, required, a, i, m);
    AllValid(cfg, names, required, a, i, q);
    SwapPermutes(hs, m, q);
    forall k | 0 <= k < |a|
      ensures ReplyAlike(cfg, required[k], a[k], b[k])
    {
    }
  }

  lemma SwapFirst(cfg: Config, required: seq<Key>, a: seq<Keyed>, b: seq<Keyed>, i: nat, m: nat, q: nat)
    requires cfg.table != [] && i < |a| <= |required| && m < q < |a[i].holders|
    requires b == a[i := Keyed(Swapped(a[i].holders, m, q), a[i].available)]
    requires Clearing(cfg, required, a, i, a[i].holders[q]) && JoinedId(a[i].holders[m].id) == JoinedId(a[i].holders[q].id)
    requires FirstListed(cfg, required, a, i, m)
    ensures b[i].holders[m] == a[i].holders[q] && FirstListed(cfg, required, b, i, m)
  {
    SwapPermutes(a[i].holders, m, q);
    forall j: nat, h | j <= i
      ensures Clearing(cfg, required, b, j, h) <==> Clearing(cfg, required, a, j, h)
    {
      assert h in a[i].holders <==> h in multiset(a[i].holders);
      assert h in b[i].holders <==> h in multiset(b[i].holders);
    }
  }

  /** With a listing that has nothing to clear beside one that has, under one joined identity, some order fails. */
  lemma SpoilerShows(cfg: Config, names: Names, required: seq<Key>, a: seq<Keyed>, i: nat, p: nat, q: nat)
    requires cfg.table != [] && i < |a| <= |required| && ScanKeys(cfg, names, required, a).Some?
    requires p < |a[i].holders| && q < |a[i].holders| && JoinedId(a[i].holders[p].id) == JoinedId(a[i].holders[q].id)
    requires Clearing(cfg, required, a, i, a[i].holders[q])
    requires Listed(cfg, required, a, i, a[i].holders[p]) && !Clearing(cfg, required, a, i, a[i].holders[p])
    ensures !OrderInvisible(cfg, names, required, a)
  {
    if q < p {
      EarlierMatches(cfg, names, required, a, i, q, i, p);
    } else {
      var b := a[i := Keyed(Swapped(a[i].holders, p, q), a[i].available)];
      SwapPermutes(a[i].holders, p, q);
      SameListings(cfg, required, a, b, i, a[i].holders[p]);
      SameListings(cfg, required, a, b, i, a[i].holders[q]);
      if ScanKeys(cfg, names, required, b).Some? {
        EarlierMatches(cfg, names, required, b, i, p, i, q);
      }
    }
  }

  /** Whatever the order of holders inside the replies, the scan succeeds and finds the same, exactly
      when in the first reply that lists a joined identity for clearing every listing of that
      identity is of one action with one list. */
  lemma OrderInvisibleIff(cfg: Config, names: Names, required: seq<Key>, a: seq<Keyed>)
    requires cfg.table != [] && |a| <= |required| && ScanKeys(cfg, names, required, a).Some?
    ensures OrderInvisible(cfg, names, required, a) <==> Uncontested(cfg, required, a)
  {
    hide SameFindings, ScanKeys;
    if Uncontested(cfg, required, a) {
      forall b | Reordered(a, b)
        ensures ScanKeys(cfg, names, required, b).Some?
        ensures SameFindings(ScanKeys(cfg, names, required, a).value, ScanKeys(cfg, names, required, b).value)
      {
        UncontestedCarries(cfg, names, required, a, b);
      }
    } else {
      var i: nat, g, h :| Clearing(cfg, required, a, i, g) && Listed(cfg, required, a, i, h) && JoinedId(g.id) == JoinedId(h.id)
                     && FirstFor(cfg, required, a, i, JoinedId(g.id)) && !(h.id == g.id && h.active == g.active);
      var p: nat :| p < |a[i].holders| && a[i].holders[p] == h;
      var q: nat :| q < |a[i].holders| && a[i].holders[q] == g;
      if Clearing(cfg, required, a, i, h) {
        SameActive(cfg, names, required, a, i, g, h);
        TwoActionsShow(cfg, names, required, a, i, q, p);
      } else {
        SpoilerShows(cfg, names, required, a, i, p, q);
      }
    }
  }

  /** A reordering of an uncontested successful scan succeeds and finds the same. */
  lemma UncontestedCarries(cfg: Config, names: Names, required: seq<Key>, a: seq<Keyed>, b: seq<Keyed>)
    requires cfg.table != [] && |a| <= |required| && ScanKeys(cfg, names, required, a).Some?
    requires Reordered(a, b) && Uncontested(cfg, required, a)
    ensures ScanKeys(cfg, names, required, b).Some?
    ensures SameFindings(ScanKeys(cfg, names, required, a).value, ScanKeys(cfg, names, required, b).value)
  {
    assert b[..|a|] == b;
    ReorderedSucceeds(cfg, names, required, a, b, |a|);
    ClearRowsCanonical(cfg, names, required, a, b);
    BlockedAlike(cfg, names, required, a, b);
  }

  /** Two actions to clear under one joined identity, in the first reply that has it: the first one listed wins. */
  lemma TwoActionsShow(cfg: Config, names: Names, required: seq<Key>, a: seq<Keyed>, i: nat, p: nat, r: nat)
    requires cfg.table != [] && i < |a| <= |required| && ScanKeys(cfg, names, required, a).Some?
    requires p < |a[i].holders| && r < |a[i].holders| && a[i].holders[p].id != a[i].holders[r].id
    requires Clearing(cfg, required, a, i, a[i].holders[p]) && Clearing(cfg, required, a, i, a[i].holders[r])
    requires JoinedId(a[i].holders[p].id) == JoinedId(a[i].holders[r].id) && FirstFor(cfg, required, a, i, JoinedId(a[i].holders[p].id))
    ensures !OrderInvisible(cfg, names, required, a)
  {
    var hs, joined := a[i].holders, JoinedId(a[i].holders[p].id);
    var m := FirstIndex(cfg, required, a, i, joined, p);
    var q := if hs[p].id != hs[m].id then p else r;
    AfterFirst(cfg, required, a, i, joined, m, q);
    ContestedShows(cfg, names, required, a, i, m, q);
  }

  // ---- a small catalog where identities run together -----------------------------

  /** One row whose chord is key 7, and a lock elsewhere. */
  const ROW := ActionId("p", "p")
  const SMALL := Config([CatalogEntry(ROW, 7)], [ConflictRow(ROW, [7], ActionId("l", "l"), [1], [2], None)])

  lemma SmallExempts(id: ActionId)
    requires id.component != "p" && id.component != "l"
    ensures !Exempt(SMALL, id, 7)
  {
    assert forall row <- SMALL.table :: row.authorized == None;
  }

  lemma SevenConflicts()
    ensures Conflicting([7], [7]) == [7] && Conflicting([9], [7]) == []
  {
    assert Filter((k: Key) => k in [7], [7]) == [7];
    assert Filter((k: Key) => k in [7], [9]) == [];
  }

  /** Of two actions to clear under one joined identity, the first one listed gets the row. */
  lemma FirstListedWins(x: Holder, y: Holder)
    requires HolderValid(x) && HolderValid(y) && JoinedId(x.id) == JoinedId(y.id)
    requires x.id.component !in {"p", "l"} && y.id.component !in {"p", "l"} && x.active == y.active == [7]
    ensures ScanKeys(SMALL, map[], [7], [Keyed([x, y], false)]) == Some(Scan([MakeRow(map[], [7], x)], []))
  {
    SevenConflicts();
    SmallExempts(x.id);
    SmallExempts(y.id);
    var row := MakeRow(map[], [7], x);
    assert [x, y][..1] == [x] && [x][..0] == [];
    assert [] + [row] == [row];
    assert FindRow([], JoinedId(x.id)) == None && FindRow([row], JoinedId(y.id)) == Some(0);
    assert ScanHolder(SMALL, map[], [7], 7, x, NothingFound) == Some(Scan([row], []));
    assert ScanHolders(SMALL, map[], [7], 7, [x], NothingFound) == Some(Scan([row], []));
    assert ScanHolders(SMALL, map[], [7], 7, [x, y], NothingFound) == Some(Scan([row], []));
    assert [Keyed([x, y], false)][..0] == [];
  }

  /** A listing with nothing to clear is a blocker before the row of its joined identity, and an
      error after it. */
  lemma SpoilerScan(x: Holder, y: Holder)
    requires HolderValid(x) && HolderValid(y) && JoinedId(x.id) == JoinedId(y.id)
    requires x.id.component !in {"p", "l"} && y.id.component !in {"p", "l"} && x.active == [9] && y.active == [7]
    ensures ScanKeys(SMALL, map[], [7], [Keyed([x, y], false)]) == Some(Scan([MakeRow(map[], [7], y)], [Blocker(x.id, 7)]))
    ensures ScanKeys(SMALL, map[], [7], [Keyed([y, x], false)]) == None
  {
    SevenConflicts();
    SmallExempts(x.id);
    SmallExempts(y.id);
    var row, blocked := MakeRow(map[], [7], y), Scan([], [Blocker(x.id, 7)]);
    assert [x, y][..1] == [x] && [y, x][..1] == [y] && [x][..0] == [] && [y][..0] == [];
    assert [] + [row] == [row] && [] + [Blocker(x.id, 7)] == [Blocker(x.id, 7)];
    assert FindRow([], JoinedId(x.id)) == None && FindRow([row], JoinedId(x.id)) == Some(0);
    assert ScanHolder(SMALL, map[], [7], 7, x, NothingFound) == Some(blocked);
    assert ScanHolders(SMALL, map[], [7], 7, [x], NothingFound) == Some(blocked);
    assert ScanHolders(SMALL, map[], [7], 7, [x, y], NothingFound) == Some(Scan([row], [Blocker(x.id, 7)]));
    assert ScanHolder(SMALL, map[], [7], 7, y, NothingFound) == Some(Scan([row], []));
    assert ScanHolders(SMALL, map[], [7], 7, [y], NothingFound) == Some(Scan([row], []));
    assert ScanHolders(SMALL, map[], [7], 7, [y, x], NothingFound) == None;
    assert [Keyed([x, y], false)][..0] == [] && [Keyed([y, x], false)][..0] == [];
  }
}
