// The shortcut catalog, the staged draft, and the key-list algebra the
// reconciler is built on.

module Shortcuts {
  import opened Prelude

  /** A combined Qt key code; 0 means "no key". */
  type Key = int

  const MAX_KEYS_PER_TUPLE := 16
  const MAX_TUPLES := 16384
  const MAX_STRING_LEN := 256
  const MAX_KEY_VALUE := 536870911

  datatype ActionId = ActionId(component: string, action: string)

  /** One row of an enumeration reply. The two friendly names travel together as names. */
  datatype Tuple = Tuple(id: ActionId, names: string, active: seq<Key>)

  /** One row of a keyed reply. */
  datatype Holder = Holder(id: ActionId, active: seq<Key>, defaults: seq<Key>)

  datatype CatalogEntry = CatalogEntry(id: ActionId, canonical: Key)

  datatype ConflictRow = ConflictRow(
    project: ActionId, post: seq<Key>,
    foreign: ActionId, foreignPre: seq<Key>, target: seq<Key>,
    authorized: Option<ActionId>)

  /** Row 0 of the conflict table relocates Lock Session; the rows after it are plain clears. */
  datatype Config = Config(catalog: seq<CatalogEntry>, table: seq<ConflictRow>)

  /** The staged draft: disabled rows, and whether enabled rows are Authentic or kept. */
  datatype Draft = Draft(disabled: set<ActionId>, authentic: bool)

  ghost predicate WellFormed(cfg: Config) {
    && cfg.table != []
    && (forall i, j :: 0 <= i < j < |cfg.catalog| ==> cfg.catalog[i].id != cfg.catalog[j].id)
    && (exists i :: 0 <= i < |cfg.catalog| && cfg.catalog[i].id == cfg.table[0].project)
    && (forall i :: 0 <= i < |cfg.catalog| ==> cfg.catalog[i].id != cfg.table[0].foreign)
    && cfg.table[0].foreignPre != []
    && (forall k <- cfg.table[0].foreignPre :: k !in cfg.table[0].target)
    && InBounds(cfg)
  }

  /** Usable ids, chords within bounds, and a single chord to relocate Lock Session to. */
  ghost predicate InBounds(cfg: Config)
    requires cfg.table != []
  {
    && (forall entry <- cfg.catalog :: IdValid(entry.id) && 0 <= entry.canonical <= MAX_KEY_VALUE)
    && (forall row <- cfg.table :: KeysValid(row.post))
    && IdValid(LockRow(cfg).foreign) && |LockRow(cfg).target| == 1
    && (forall k <- LockRow(cfg).target + LockRow(cfg).foreignPre :: KeyInRange(k))
  }

  function LockRow(cfg: Config): ConflictRow
    requires cfg.table != []
  {
    cfg.table[0]
  }

  predicate InCatalog(cfg: Config, id: ActionId) {
    exists i :: 0 <= i < |cfg.catalog| && cfg.catalog[i].id == id
  }

  /** Unknown disabled ids are refused before anything else happens. */
  predicate DraftKnown(cfg: Config, draft: Draft) {
    forall id <- draft.disabled :: InCatalog(cfg, id)
  }

  lemma KnownDraft(cfg: Config, draft: Draft)
    ensures DraftKnown(cfg, draft) <==> forall id <- draft.disabled :: exists entry <- cfg.catalog :: entry.id == id
  {
    forall id | id in draft.disabled
      ensures InCatalog(cfg, id) <==> exists entry <- cfg.catalog :: entry.id == id
    {
      if entry :| entry in cfg.catalog && entry.id == id {
        var i :| 0 <= i < |cfg.catalog| && cfg.catalog[i] == entry;
      }
    }
  }

  /** The lock is in scope only while focus-right itself is enabled and Authentic. */
  predicate FocusAuthentic(cfg: Config, draft: Draft)
    requires cfg.table != []
  {
    LockRow(cfg).project !in draft.disabled && draft.authentic
  }

  /** The first conflict row's post for a table project, else the canonical chord. */
  function ExpectedPost(cfg: Config, entry: CatalogEntry): seq<Key> {
    TablePost(cfg.table, entry)
  }

  function TablePost(table: seq<ConflictRow>, entry: CatalogEntry): seq<Key> {
    if table == [] then (if entry.canonical == 0 then [] else [entry.canonical])
    else if table[0].project == entry.id then table[0].post
    else TablePost(table[1..], entry)
  }

  /** The keys a catalog row is to hold once it is enabled: the post of the first conflict row of that
      project, or, when none is of it, its canonical chord alone, if it has one. */
  ghost predicate AtPost(cfg: Config, entry: CatalogEntry, keys: seq<Key>) {
    && (forall i | 0 <= i < |cfg.table| && cfg.table[i].project == entry.id && (forall j | 0 <= j < i :: cfg.table[j].project != entry.id) ::
          keys == cfg.table[i].post)
    && ((forall row <- cfg.table :: row.project != entry.id) ==>
          (entry.canonical == 0 ==> keys == []) && (entry.canonical != 0 ==> keys == [entry.canonical]))
  }

  predicate KeysValid(keys: seq<Key>) {
    |keys| <= MAX_KEYS_PER_TUPLE && forall k <- keys :: 0 <= k <= MAX_KEY_VALUE
  }

  predicate KeyInRange(key: Key) { 0 < key <= MAX_KEY_VALUE }

  predicate StringValid(s: string) { 0 < |s| <= MAX_STRING_LEN }

  predicate LabelValid(s: string) { |s| <= MAX_STRING_LEN }

  predicate IdValid(id: ActionId) { StringValid(id.component) && StringValid(id.action) }

  predicate HolderValid(h: Holder) {
    IdValid(h.id) && KeysValid(h.active) && KeysValid(h.defaults)
  }

  /** The bounds on what is read and written. */
  lemma Bounds(id: ActionId, keys: seq<Key>, k: Key, h: Holder)
    ensures IdValid(id) <==> 1 <= |id.component| <= 256 && 1 <= |id.action| <= 256
    ensures KeysValid(keys) <==> |keys| <= 16 && forall i | 0 <= i < |keys| :: 0 <= keys[i] <= 536870911
    ensures KeyInRange(k) <==> 1 <= k <= 536870911
    ensures HolderValid(h) <==> IdValid(h.id) && KeysValid(h.active) && KeysValid(h.defaults)
  {
    assert forall i | 0 <= i < |keys| :: keys[i] in keys;
    if !KeysValid(keys) && |keys| <= 16 {
      var x :| x in keys && !(0 <= x <= MAX_KEY_VALUE);
      var i :| 0 <= i < |keys| && keys[i] == x;
    }
  }

  /** Own prefix, current and legacy alike: such actions stay cleared on revert. */
  predicate ProjectOwned(id: ActionId) {
    id.component == "kwin" && "omnitiler-" <= id.action
  }

  /** The identity string the holder scan keys its rows by. */
  function JoinedId(id: ActionId): string { id.component + "/" + id.action }

  // ---- key lists ----------------------------------------------------------

  /** First occurrences only, in order. */
  function Dedup(keys: seq<Key>): seq<Key> {
    if keys == [] then []
    else
      var front := Dedup(keys[..|keys| - 1]);
      var last := keys[|keys| - 1];
      if last in front then front else front + [last]
  }

  /** The required keys a holder has, each once: what a clear removes. */
  function Conflicting(active: seq<Key>, required: seq<Key>): seq<Key> {
    Dedup(Filter((k: Key) => k in required, active))
  }

  /** What a clear leaves behind. */
  function Remainder(active: seq<Key>, required: seq<Key>): seq<Key> {
    Filter((k: Key) => k !in required, active)
  }

  /** Each old lock chord replaced in place by the relocation target. */
  function Substitute(row: ConflictRow, keys: seq<Key>): seq<Key> {
    if keys == [] then []
    else
      var last := keys[|keys| - 1];
      Substitute(row, keys[..|keys| - 1]) + (if last in row.foreignPre then row.target else [last])
  }

  function LockPost(row: ConflictRow, lockPre: seq<Key>): seq<Key> {
    Dedup(Substitute(row, lockPre))
  }

  predicate HoldsAny(active: seq<Key>, keys: seq<Key>) {
    exists k <- keys :: k in active
  }

  /** Canonical chords of the enabled rows, in catalog order, unbound rows skipped. */
  function Canonicals(catalog: seq<CatalogEntry>, draft: Draft): seq<Key> {
    if catalog == [] then []
    else
      var last := catalog[|catalog| - 1];
      Canonicals(catalog[..|catalog| - 1], draft) +
      (if last.id in draft.disabled || last.canonical == 0 then [] else [last.canonical])
  }

  function RequiredKeys(cfg: Config, draft: Draft, keep: seq<Key>): seq<Key>
    requires cfg.table != []
  {
    Dedup((if draft.authentic then Canonicals(cfg.catalog, draft) else Filter((k: Key) => k != 0, keep)) +
          (if FocusAuthentic(cfg, draft) then LockRow(cfg).target + LockRow(cfg).foreignPre else []))
  }

  /** Live chords of the first n rows that are enabled. */
  function LiveChords(cfg: Config, images: seq<seq<Key>>, draft: Draft, n: nat): seq<Key>
    requires n <= |cfg.catalog| && n <= |images|
  {
    if n == 0 then []
    else LiveChords(cfg, images, draft, n - 1) + (if cfg.catalog[n - 1].id in draft.disabled then [] else images[n - 1])
  }

  function Cap(keys: seq<Key>): seq<Key> {
    if |keys| > MAX_TUPLES then keys[..MAX_TUPLES] else keys
  }

  /** Keep rows contribute their live chords; Authentic drafts contribute none here. */
  function KeepKeys(cfg: Config, images: seq<seq<Key>>, draft: Draft): seq<Key> {
    if draft.authentic then []
    else Cap(LiveChords(cfg, images, draft, if |images| < |cfg.catalog| then |images| else |cfg.catalog|))
  }

  // ---- what is required ---------------------------------------------------

  lemma {:induction false} CanonicalsMembers(catalog: seq<CatalogEntry>, draft: Draft)
    ensures forall k :: k in Canonicals(catalog, draft) <==>
              k != 0 && exists i :: 0 <= i < |catalog| && catalog[i].id !in draft.disabled && catalog[i].canonical == k
  {
    if catalog != [] {
      var front, last := catalog[..|catalog| - 1], catalog[|catalog| - 1];
      CanonicalsMembers(front, draft);
      forall k
        ensures k in Canonicals(catalog, draft) <==>
                  k != 0 && exists i :: 0 <= i < |catalog| && catalog[i].id !in draft.disabled && catalog[i].canonical == k
      {
        if k in Canonicals(front, draft) {
          var i :| 0 <= i < |front| && front[i].id !in draft.disabled && front[i].canonical == k;
          assert catalog[i] == front[i];
        }
        if i :| 0 <= i < |catalog| && catalog[i].id !in draft.disabled && catalog[i].canonical == k && k != 0 {
          if i < |front| {
            assert front[i] == catalog[i];
          }
        }
      }
    }
  }

  lemma {:induction false} LiveChordsMembers(cfg: Config, images: seq<seq<Key>>, draft: Draft, n: nat)
    requires n <= |cfg.catalog| && n <= |images|
    ensures forall k :: k in LiveChords(cfg, images, draft, n) <==>
              exists i :: 0 <= i < n && cfg.catalog[i].id !in draft.disabled && k in images[i]
  {
    if n > 0 { LiveChordsMembers(cfg, images, draft, n - 1); }
  }

  /** What an enabled row asks for: its canonical chord, or, when rows are kept, what it holds; never no key. */
  ghost predicate AskedFor(cfg: Config, draft: Draft, images: seq<seq<Key>>, k: Key)
    requires |images| == |cfg.catalog|
  {
    k != 0 && exists i :: 0 <= i < |cfg.catalog| && cfg.catalog[i].id !in draft.disabled
                          && if draft.authentic then cfg.catalog[i].canonical == k else k in images[i]
  }

  /** What relocating Lock Session asks for, while focus-right is enabled and Authentic. */
  ghost predicate AskedByLock(cfg: Config, draft: Draft, k: Key)
    requires cfg.table != []
  {
    && draft.authentic && cfg.table[0].project !in draft.disabled
    && (k in cfg.table[0].target || k in cfg.table[0].foreignPre)
  }

  /** The required keys are those that some enabled row or the lock asks for, each once, as long as the kept
      chords are within the cap; beyond it they are some of them. */
  lemma RequiredAre(cfg: Config, draft: Draft, images: seq<seq<Key>>)
    requires cfg.table != [] && |images| == |cfg.catalog|
    ensures var required := RequiredKeys(cfg, draft, KeepKeys(cfg, images, draft));
            && NoDup(required)
            && (forall k <- required :: AskedFor(cfg, draft, images, k) || AskedByLock(cfg, draft, k))
            && (draft.authentic || |LiveChords(cfg, images, draft, |images|)| <= MAX_TUPLES ==>
                  forall k :: AskedFor(cfg, draft, images, k) || AskedByLock(cfg, draft, k) ==> k in required)
  {
    var keep := KeepKeys(cfg, images, draft);
    var base := if draft.authentic then Canonicals(cfg.catalog, draft) else Filter((k: Key) => k != 0, keep);
    var all := base + (if FocusAuthentic(cfg, draft) then LockRow(cfg).target + LockRow(cfg).foreignPre else []);
    AskedForMembers(cfg, draft, images);
    DedupMembers(all);
    DedupDistinct(all);
  }

  lemma AskedForMembers(cfg: Config, draft: Draft, images: seq<seq<Key>>)
    requires |images| == |cfg.catalog|
    ensures var base := if draft.authentic then Canonicals(cfg.catalog, draft) else Filter((k: Key) => k != 0, KeepKeys(cfg, images, draft));
            && (forall k <- base :: AskedFor(cfg, draft, images, k))
            && (draft.authentic || |LiveChords(cfg, images, draft, |images|)| <= MAX_TUPLES ==>
                  forall k | AskedFor(cfg, draft, images, k) :: k in base)
  {
    if draft.authentic {
      CanonicalsMembers(cfg.catalog, draft);
    } else {
      var live := LiveChords(cfg, images, draft, |images|);
      LiveChordsMembers(cfg, images, draft, |images|);
      FilterMembers((k: Key) => k != 0, KeepKeys(cfg, images, draft));
      assert KeepKeys(cfg, images, draft) == Cap(live) && Cap(live) <= live;
      forall k | k in Cap(live) && k != 0
        ensures AskedFor(cfg, draft, images, k)
      {
        assert k in live;
      }
    }
  }

  // ---- the loops ----------------------------------------------------------

  method DedupKeys(keys: seq<Key>) returns (deduped: seq<Key>)
    ensures deduped == Dedup(keys)
  {
    deduped := [];
    for i := 0 to |keys|
      invariant deduped == Dedup(keys[..i])
    {
      assert keys[..i + 1][..i] == keys[..i];
      if keys[i] !in deduped {
        deduped := deduped + [keys[i]];
      }
    }
    assert keys[..|keys|] == keys;
  }

  method ConflictingKeysIn(active: seq<Key>, required: seq<Key>) returns (out: seq<Key>)
    ensures out == Conflicting(active, required)
  {
    out := [];
    ghost var wanted := (k: Key) => k in required;
    for i := 0 to |active|
      invariant out == Dedup(Filter(wanted, active[..i]))
    {
      FilterConcat(wanted, active[..i], [active[i]]);
      assert active[..i + 1] == active[..i] + [active[i]];
      ghost var hit := Filter(wanted, active[..i]);
      assert active[i] in required ==> Filter(wanted, active[..i + 1]) == hit + [active[i]] && (hit + [active[i]])[..|hit|] == hit;
      assert active[i] !in required ==> Filter(wanted, active[..i + 1]) == hit;
      if active[i] in required && active[i] !in out {
        out := out + [active[i]];
      }
    }
    assert active[..|active|] == active;
  }

  method RemainderAfterClearIn(active: seq<Key>, required: seq<Key>) returns (out: seq<Key>)
    ensures out == Remainder(active, required)
  {
    out := [];
    ghost var kept := (k: Key) => k !in required;
    for i := 0 to |active|
      invariant out == Filter(kept, active[..i])
    {
      FilterConcat(kept, active[..i], [active[i]]);
      assert active[..i + 1] == active[..i] + [active[i]];
      if active[i] !in required {
        out := out + [active[i]];
      }
    }
    assert active[..|active|] == active;
  }

  method LockPostFor(row: ConflictRow, lockPre: seq<Key>) returns (post: seq<Key>)
    ensures post == LockPost(row, lockPre)
  {
    var replaced := [];
    for i := 0 to |lockPre|
      invariant replaced == Substitute(row, lockPre[..i])
    {
      assert lockPre[..i + 1][..i] == lockPre[..i];
      if lockPre[i] in row.foreignPre {
        replaced := replaced + row.target;
      } else {
        replaced := replaced + [lockPre[i]];
      }
    }
    assert lockPre[..|lockPre|] == lockPre;
    post := DedupKeys(replaced);
  }

  method KeepKeysForImages(cfg: Config, images: seq<seq<Key>>, draft: Draft) returns (out: seq<Key>)
    ensures out == KeepKeys(cfg, images, draft) && |out| <= 16384
  {
    out := [];
    if draft.authentic {
      return;
    }
    var rows := if |images| < |cfg.catalog| then |images| else |cfg.catalog|;
    for i := 0 to rows
      invariant out == LiveChords(cfg, images, draft, i)
      invariant |out| <= MAX_TUPLES
    {
      if cfg.catalog[i].id !in draft.disabled {
        for j := 0 to |images[i]|
          invariant out == LiveChords(cfg, images, draft, i) + images[i][..j]
          invariant |out| <= MAX_TUPLES
        {
          if |out| >= MAX_TUPLES {
            LiveChordsGrow(cfg, images, draft, i + 1, rows);
            assert LiveChords(cfg, images, draft, i + 1) == out + images[i][j..];
            assert LiveChords(cfg, images, draft, rows)[..MAX_TUPLES] == out;
            return;
          }
          out := out + [images[i][j]];
        }
        assert images[i][..|images[i]|] == images[i];
      }
    }
  }

  method EnabledRequiredKeys(cfg: Config, draft: Draft, keep: seq<Key>) returns (out: seq<Key>)
    requires cfg.table != []
    ensures out == RequiredKeys(cfg, draft, keep)
  {
    ghost var base;
    if draft.authentic {
      out, base := CanonicalKeys(cfg.catalog, draft);
    } else {
      var bound := Remainder(keep, [0]);
      assert bound == Filter((k: Key) => k != 0, keep) by {
        FilterSame((k: Key) => k !in [0], (k: Key) => k != 0, keep);
      }
      base := [];
      out := AppendAll(base, [], bound);
      assert base + bound == bound;
      base := bound;
    }
    if FocusAuthentic(cfg, draft) {
      out := AppendAll(base, out, LockRow(cfg).target + LockRow(cfg).foreignPre);
    } else {
      assert base + [] == base;
    }
  }

  method CanonicalKeys(catalog: seq<CatalogEntry>, draft: Draft) returns (out: seq<Key>, ghost base: seq<Key>)
    ensures base == Canonicals(catalog, draft) && out == Dedup(base)
  {
    out, base := [], [];
    for i := 0 to |catalog|
      invariant base == Canonicals(catalog[..i], draft)
      invariant out == Dedup(base)
    {
      assert catalog[..i + 1][..i] == catalog[..i];
      var entry := catalog[i];
      if entry.id !in draft.disabled && entry.canonical != 0 {
        DedupStep(base, entry.canonical);
        if entry.canonical !in out {
          out := out + [entry.canonical];
        }
        base := base + [entry.canonical];
      }
    }
    assert catalog[..|catalog|] == catalog;
  }

  /** Append every key that is not there yet. */
  method AppendAll(ghost seen: seq<Key>, start: seq<Key>, keys: seq<Key>) returns (out: seq<Key>)
    requires start == Dedup(seen)
    ensures out == Dedup(seen + keys)
  {
    out := start;
    assert seen + keys[..0] == seen;
    for i := 0 to |keys|
      invariant out == Dedup(seen + keys[..i])
    {
      DedupStep(seen + keys[..i], keys[i]);
      assert seen + keys[..i + 1] == seen + keys[..i] + [keys[i]];
      if keys[i] !in out {
        out := out + [keys[i]];
      }
    }
    assert keys[..|keys|] == keys;
  }

  lemma DedupStep(keys: seq<Key>, key: Key)
    ensures Dedup(keys + [key]) == if key in keys then Dedup(keys) else Dedup(keys) + [key]
    ensures key in Dedup(keys) <==> key in keys
  {
    assert (keys + [key])[..|keys|] == keys;
    DedupMembers(keys);
  }

  lemma {:induction false} DedupMembers(keys: seq<Key>)
    ensures forall k :: k in Dedup(keys) <==> k in keys
    decreases |keys|
  {
    if keys != [] {
      var front, last := keys[..|keys| - 1], keys[|keys| - 1];
      DedupMembers(front);
      assert keys == front + [last];
    }
  }

  lemma {:induction false} DedupDistinct(keys: seq<Key>)
    ensures NoDup(Dedup(keys))
    decreases |keys|
  {
    if keys != [] {
      DedupDistinct(keys[..|keys| - 1]);
    }
  }

  /** The i-th key occurs nowhere before. */
  ghost predicate FirstAt(keys: seq<Key>, i: nat) {
    i < |keys| && keys[i] !in keys[..i]
  }

  /** Every key is kept once, at the place of its first occurrence: the kept keys come in the order in which
      they first occur. */
  lemma {:induction false} DedupKeepsFirst(keys: seq<Key>, i: nat, j: nat)
    requires i < j < |Dedup(keys)|
    ensures exists a, b :: 0 <= a < b && FirstAt(keys, a) && FirstAt(keys, b) && keys[a] == Dedup(keys)[i] && keys[b] == Dedup(keys)[j]
    decreases |keys|
  {
    var front, last := keys[..|keys| - 1], keys[|keys| - 1];
    assert keys == front + [last];
    if j < |Dedup(front)| {
      DedupKeepsFirst(front, i, j);
      var a, b :| 0 <= a < b && FirstAt(front, a) && FirstAt(front, b) && front[a] == Dedup(front)[i] && front[b] == Dedup(front)[j];
      assert keys[..a] == front[..a] && keys[..b] == front[..b];
      assert FirstAt(keys, a) && FirstAt(keys, b);
    } else {
      DedupMembers(front);
      var a := FirstOccurrence(front, Dedup(front)[i]);
      assert keys[..a] == front[..a] && keys[..|front|] == front;
      assert FirstAt(keys, a) && FirstAt(keys, |front|);
    }
  }

  lemma {:induction false} FirstOccurrence(keys: seq<Key>, k: Key) returns (i: nat)
    requires k in keys
    ensures FirstAt(keys, i) && keys[i] == k
    decreases |keys|
  {
    var front, last := keys[..|keys| - 1], keys[|keys| - 1];
    assert keys == front + [last];
    if k in front {
      i := FirstOccurrence(front, k);
      assert keys[..i] == front[..i];
    } else {
      i := |front|;
      assert keys[..i] == front;
    }
  }

  lemma {:induction false} FilterSame<T>(p: T -> bool, q: T -> bool, s: seq<T>)
    requires forall x <- s :: p(x) == q(x)
    ensures Filter(p, s) == Filter(q, s)
  {
    if s != [] {
      FilterSame(p, q, s[1..]);
    }
  }

  lemma {:induction false} LiveChordsGrow(cfg: Config, images: seq<seq<Key>>, draft: Draft, m: nat, n: nat)
    requires m <= n <= |cfg.catalog| && n <= |images|
    ensures LiveChords(cfg, images, draft, m) <= LiveChords(cfg, images, draft, n)
  {
    if m < n {
      LiveChordsGrow(cfg, images, draft, m, n - 1);
    }
  }

  // ---- what the lists mean -------------------------------------------------

  /** A clear splits the active list: every key is removed or kept, never both, and what
      is kept stays with its multiplicity. */
  lemma ClearSplits(active: seq<Key>, required: seq<Key>)
    ensures forall k :: k in active <==> k in Conflicting(active, required) || k in Remainder(active, required)
    ensures forall k :: k in Conflicting(active, required) ==> k in required && k !in Remainder(active, required)
    ensures forall k :: k !in required ==> multiset(Remainder(active, required))[k] == multiset(active)[k]
    ensures NoDup(Conflicting(active, required))
  {
    var hit, kept := (k: Key) => k in required, (k: Key) => k !in required;
    FilterMembers(hit, active);
    FilterMembers(kept, active);
    DedupMembers(Filter(hit, active));
    DedupDistinct(Filter(hit, active));
    forall k | k !in required
      ensures multiset(Remainder(active, required))[k] == multiset(active)[k]
    {
      FilterKeepsCount(kept, active, k);
    }
  }

  /** Clearing twice clears nothing more, and a list is left as it is exactly when nothing conflicts. */
  lemma ClearSettles(active: seq<Key>, required: seq<Key>)
    ensures Conflicting(Remainder(active, required), required) == []
    ensures Remainder(Remainder(active, required), required) == Remainder(active, required)
    ensures Conflicting(active, required) == [] <==> Remainder(active, required) == active
  {
    var hit, kept := (k: Key) => k in required, (k: Key) => k !in required;
    FilterMembers(kept, active);
    FilterNone(hit, Filter(kept, active));
    FilterAll(kept, Filter(kept, active));
    ClearSplits(active, required);
    if Conflicting(active, required) == [] {
      assert forall k <- active :: k in Remainder(active, required);
      FilterAll(kept, active);
    } else {
      FilterMembers(hit, active);
      var k := Conflicting(active, required)[0];
      assert k in Filter(hit, active);
      assert k in active && k !in Remainder(active, required);
    }
  }

  lemma {:induction false} FilterNone<T>(p: T -> bool, s: seq<T>)
    requires forall x <- s :: !p(x)
    ensures Filter(p, s) == []
  {
    if s != [] {
      FilterNone(p, s[1..]);
    }
  }

  lemma {:induction false} FilterKeepsCount<T>(p: T -> bool, s: seq<T>, x: T)
    requires p(x)
    ensures multiset(Filter(p, s))[x] == multiset(s)[x]
  {
    if s != [] {
      FilterKeepsCount(p, s[1..], x);
      assert s == [s[0]] + s[1..];
    }
  }

  lemma {:induction false} DedupNoDup(keys: seq<Key>)
    requires NoDup(keys)
    ensures Dedup(keys) == keys
  {
    if keys != [] {
      DedupNoDup(keys[..|keys| - 1]);
      assert keys == keys[..|keys| - 1] + [keys[|keys| - 1]];
    }
  }

  lemma {:induction false} SubstituteMembers(row: ConflictRow, keys: seq<Key>)
    ensures forall k :: k in Substitute(row, keys) <==>
              (k in keys && k !in row.foreignPre) || (k in row.target && HoldsAny(keys, row.foreignPre))
  {
    if keys != [] {
      var front, last := keys[..|keys| - 1], keys[|keys| - 1];
      SubstituteMembers(row, front);
      assert keys == front + [last];
      assert HoldsAny(keys, row.foreignPre) <==> HoldsAny(front, row.foreignPre) || last in row.foreignPre by {
        if last in row.foreignPre {
          assert last in keys;
        }
      }
    }
  }

  lemma {:induction false} SubstituteNothing(row: ConflictRow, keys: seq<Key>)
    requires !HoldsAny(keys, row.foreignPre)
    ensures Substitute(row, keys) == keys
  {
    if keys != [] {
      var front, last := keys[..|keys| - 1], keys[|keys| - 1];
      assert keys == front + [last];
      assert last in keys;
      SubstituteNothing(row, front);
    }
  }

  lemma FilterStep(p: Key -> bool, keys: seq<Key>, key: Key)
    ensures Filter(p, keys + [key]) == if p(key) then Filter(p, keys) + [key] else Filter(p, keys)
  {
    FilterConcat(p, keys, [key]);
    assert Filter(p, [key]) == if p(key) then [key] else [];
  }

  lemma {:induction false} DedupFilter(p: Key -> bool, keys: seq<Key>)
    ensures Filter(p, Dedup(keys)) == Dedup(Filter(p, keys))
    decreases |keys|
  {
    if keys != [] {
      var front, last := keys[..|keys| - 1], keys[|keys| - 1];
      DedupFilter(p, front);
      assert keys == front + [last];
      DedupFilterStep(p, front, last);
    }
  }

  lemma DedupFilterStep(p: Key -> bool, front: seq<Key>, last: Key)
    requires Filter(p, Dedup(front)) == Dedup(Filter(p, front))
    ensures Filter(p, Dedup(front + [last])) == Dedup(Filter(p, front + [last]))
  {
    DedupStep(front, last);
    FilterStep(p, front, last);
    FilterStep(p, Dedup(front), last);
    DedupStep(Filter(p, front), last);
    FilterMembers(p, front);
  }

  lemma {:induction false} SubstituteOthers(row: ConflictRow, keys: seq<Key>, other: Key -> bool)
    requires forall k | other(k) :: k !in row.foreignPre && k !in row.target
    ensures Filter(other, Substitute(row, keys)) == Filter(other, keys)
  {
    if keys != [] {
      var front, last := keys[..|keys| - 1], keys[|keys| - 1];
      SubstituteOthers(row, front, other);
      assert keys == front + [last];
      FilterConcat(other, front, [last]);
      FilterConcat(other, Substitute(row, front), if last in row.foreignPre then row.target else [last]);
      if last in row.foreignPre {
        FilterNone(other, row.target);
      }
    }
  }

  /** Relocation drops every old chord, gains the whole target when one was held, and keeps the rest. */
  lemma LockPostRelocates(row: ConflictRow, pre: seq<Key>)
    ensures forall k :: k in LockPost(row, pre) <==>
              (k in pre && k !in row.foreignPre) || (k in row.target && HoldsAny(pre, row.foreignPre))
    ensures NoDup(LockPost(row, pre))
  {
    SubstituteMembers(row, pre);
    DedupMembers(Substitute(row, pre));
    DedupDistinct(Substitute(row, pre));
  }

  /** All keys other than the old chords and the target keep their order. */
  lemma LockPostKeepsOthers(row: ConflictRow, pre: seq<Key>)
    ensures var other := (k: Key) => k !in row.foreignPre && k !in row.target;
            Filter(other, LockPost(row, pre)) == Dedup(Filter(other, pre))
  {
    var other := (k: Key) => k !in row.foreignPre && k !in row.target;
    DedupFilter(other, Substitute(row, pre));
    SubstituteOthers(row, pre, other);
  }

  /** Relocating a relocated lock changes nothing. */
  lemma LockPostIdempotent(row: ConflictRow, pre: seq<Key>)
    requires forall k <- row.foreignPre :: k !in row.target
    ensures LockPost(row, LockPost(row, pre)) == LockPost(row, pre)
  {
    LockPostRelocates(row, pre);
    SubstituteNothing(row, LockPost(row, pre));
    DedupNoDup(LockPost(row, pre));
  }

  /** A relocated lock holds a target chord if it held an old or a target one before. */
  lemma LockPostHeld(row: ConflictRow, pre: seq<Key>)
    requires row.target != [] && forall k <- row.foreignPre :: k !in row.target
    requires HoldsAny(pre, row.foreignPre) || HoldsAny(pre, row.target)
    ensures HoldsAny(LockPost(row, pre), row.target)
  {
    LockPostRelocates(row, pre);
    var t := row.target[0];
    if !HoldsAny(pre, row.foreignPre) {
      t :| t in row.target && t in pre;
    }
    assert t in LockPost(row, pre);
  }

  /** With a single target chord a relocated list stays within bounds. */
  lemma LockPostFits(row: ConflictRow, pre: seq<Key>)
    requires |row.target| == 1 && KeysValid(row.target) && KeysValid(pre)
    ensures KeysValid(LockPost(row, pre))
  {
    LockPostRelocates(row, pre);
    SubstituteSameLength(row, pre);
    DedupShorter(Substitute(row, pre));
    assert forall k <- LockPost(row, pre) :: k in pre || k in row.target;
  }

  /** With a single target chord it takes the place of every old chord, and every other key stays in its place. */
  lemma {:induction false} SubstituteInPlace(row: ConflictRow, keys: seq<Key>)
    requires |row.target| == 1
    ensures |Substitute(row, keys)| == |keys|
    ensures forall i | 0 <= i < |keys| :: Substitute(row, keys)[i] == if keys[i] in row.foreignPre then row.target[0] else keys[i]
    decreases |keys|
  {
    if keys != [] {
      SubstituteInPlace(row, keys[..|keys| - 1]);
    }
  }

  lemma {:induction false} SubstituteSameLength(row: ConflictRow, keys: seq<Key>)
    requires |row.target| == 1
    ensures |Substitute(row, keys)| == |keys|
    decreases |keys|
  {
    if keys != [] {
      SubstituteSameLength(row, keys[..|keys| - 1]);
    }
  }

  lemma {:induction false} DedupShorter(keys: seq<Key>)
    ensures |Dedup(keys)| <= |keys|
    decreases |keys|
  {
    if keys != [] {
      DedupShorter(keys[..|keys| - 1]);
    }
  }

  lemma {:induction false} TablePostFirst(table: seq<ConflictRow>, entry: CatalogEntry)
    ensures forall i | 0 <= i < |table| && table[i].project == entry.id && (forall j | 0 <= j < i :: table[j].project != entry.id) ::
              TablePost(table, entry) == table[i].post
    ensures (forall row <- table :: row.project != entry.id) ==> TablePost(table, entry) == if entry.canonical == 0 then [] else [entry.canonical]
  {
    if table != [] {
      TablePostFirst(table[1..], entry);
      forall i | 0 <= i < |table| && table[i].project == entry.id && (forall j | 0 <= j < i :: table[j].project != entry.id)
        ensures TablePost(table, entry) == table[i].post
      {
        if i > 0 {
          assert table[0].project != entry.id && table[1..][i - 1] == table[i];
          assert forall j | 0 <= j < i - 1 :: table[1..][j] == table[j + 1];
        }
      }
      assert table[0] in table && forall row <- table[1..] :: row in table;
    }
  }

  lemma {:induction false} FirstOfProject(table: seq<ConflictRow>, id: ActionId) returns (i: nat)
    requires exists row <- table :: row.project == id
    ensures i < |table| && table[i].project == id && forall j | 0 <= j < i :: table[j].project != id
  {
    i := 0;
    if table[0].project != id {
      i := FirstOfProject(table[1..], id);
      i := i + 1;
    }
  }

  /** Exactly one list is where the tables want an enabled row. */
  lemma ExpectedPostIsAtPost(cfg: Config, entry: CatalogEntry, keys: seq<Key>)
    ensures AtPost(cfg, entry, keys) <==> keys == ExpectedPost(cfg, entry)
  {
    TablePostFirst(cfg.table, entry);
    if exists row <- cfg.table :: row.project == entry.id {
      var i := FirstOfProject(cfg.table, entry.id);
    }
  }

  /** The post of a catalog row is within bounds. */
  lemma {:induction false} TablePostFits(table: seq<ConflictRow>, entry: CatalogEntry)
    requires (forall row <- table :: KeysValid(row.post)) && 0 <= entry.canonical <= MAX_KEY_VALUE
    ensures KeysValid(TablePost(table, entry))
  {
    if table != [] {
      assert table[0] in table;
      TablePostFits(table[1..], entry);
    }
  }
}
