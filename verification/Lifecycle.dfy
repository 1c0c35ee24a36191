// Desktop lifecycle as a pass over values: retire empty desktops behind the
// guards, keep one trailing empty per list, and settle after two passes.

module Lifecycle {
  import opened Prelude
  import opened SessionKeys
  import opened WorkspaceLists

  const MIN_DESKTOPS := 2
  const MAX_DESKTOPS := 32

  datatype Mode = PerOutputLocal | GlobalUnique | Shared

  /** The single list of the shared mode. */
  const SHARED: OutputKey := "shared"

  /** The desktops, the lists of the mode, what the session manages, and the next new desktop. */
  datatype Domain = Domain(live: seq<DesktopId>, lists: Lists, managed: set<DesktopId>, next: DesktopId)

  /** What a pass takes as given: connected outputs in order, the desktops with windows, in view,
      and kept for a pending send or a displaced output, and the origins of displaced desktops. */
  datatype Context = Context(keys: seq<OutputKey>, occupied: set<DesktopId>, visible: set<DesktopId>,
                             kept: set<DesktopId>, origins: set<OutputKey>)

  function Last(s: seq<DesktopId>): Option<DesktopId> {
    if s == [] then None else Some(s[|s| - 1])
  }

  /** The removal guards; count is the length of the list the desktop is retired from. */
  predicate Removable(c: Context, d: Domain, id: DesktopId, count: nat) {
    && id in d.managed && id !in c.visible && id !in c.kept && id !in c.occupied
    && |d.live| > MIN_DESKTOPS && Last(d.live) != Some(id) && count > MIN_DESKTOPS && id in d.live
  }

  function Dropped(d: Domain, id: DesktopId): Domain {
    Domain(Without(d.live, [id]), Removed(d.lists, [id]), d.managed - {id}, d.next)
  }

  function TryRemove(c: Context, d: Domain, id: DesktopId, count: nat): Domain {
    if Removable(c, d, id, count) then Dropped(d, id) else d
  }

  function Created(d: Domain, key: OutputKey): Domain {
    Domain(d.live + [d.next], Appended(d.lists, key, [d.next]), d.managed + {d.next}, d.next + 1)
  }

  /** Retire the candidates in order, except the trailing empty one. */
  function Retired(c: Context, d: Domain, key: OutputKey, candidates: seq<DesktopId>, trailing: Option<DesktopId>): Domain
    decreases |candidates|
  {
    if candidates == [] then d
    else
      Retired(c, Attempted(c, d, key, candidates[0], trailing), key, candidates[1..], trailing)
  }

  function Attempted(c: Context, d: Domain, key: OutputKey, id: DesktopId, trailing: Option<DesktopId>): Domain {
    if Some(id) == trailing then d else TryRemove(c, d, id, |At(d.lists, key)|)
  }

  /** The last desktop of a list when no window is on it. */
  function Trailing(c: Context, list: seq<DesktopId>): Option<DesktopId> {
    if list == [] || list[|list| - 1] in c.occupied then None else Last(list)
  }

  function WithTrailing(c: Context, d: Domain, key: OutputKey): Domain {
    var list := At(d.lists, key);
    var d1 := Retired(c, d, key, list, Trailing(c, list));
    if Trailing(c, At(d1.lists, key)).Some? then d1 else Created(d1, key)
  }

  function Enforced(c: Context, d: Domain, keys: seq<OutputKey>): Domain
    decreases |keys|
  {
    if keys == [] then d else Enforced(c, WithTrailing(c, d, keys[0]), keys[1..])
  }

  /** Retire the desktops no list names. */
  function Swept(c: Context, d: Domain, listed: set<DesktopId>, candidates: seq<DesktopId>): Domain
    decreases |candidates|
  {
    if candidates == [] then d
    else
      var id := candidates[0];
      var d1 := if id in listed then d else TryRemove(c, d, id, MIN_DESKTOPS + 1);
      Swept(c, d1, listed, candidates[1..])
  }

  /** The global lists after a rebuild: lists of lost outputs go once empty unless displaced. */
  function RebuiltGlobal(lists: Lists, live: seq<DesktopId>, held: set<OutputKey>, primary: OutputKey): Lists {
    var kept := map key | key in lists && (key in held || Only(lists[key], live) != []) :: Only(lists[key], live);
    if Unlisted(kept, live) == [] then kept else Appended(kept, primary, Unlisted(kept, live))
  }

  function SetOf<T>(s: seq<T>): set<T> { set x | x in s }

  function Rebuild(mode: Mode, c: Context, d: Domain, primary: OutputKey): Domain {
    match mode
    case PerOutputLocal =>
      if c.keys == [] then d
      else d.(lists := Rebuilt(d.lists, d.live, primary),
              managed := d.managed + SetOf(Unlisted(KeptLive(d.lists, d.live), d.live)))
    case GlobalUnique =>
      if c.keys == [] then d
      else d.(lists := RebuiltGlobal(d.lists, d.live, SetOf(c.keys) + c.origins, primary),
              managed := d.managed + SetOf(Unlisted(KeptLive(d.lists, d.live), d.live)))
    case Shared =>
      d.(lists := map[SHARED := d.live], managed := d.managed + SetOf(d.live))
  }

  /** One cleanup pass. */
  function Pass(mode: Mode, c: Context, d: Domain, primary: OutputKey): Domain {
    var d1 := Enforced(c, Rebuild(mode, c, d, primary), if mode == Shared then [SHARED] else c.keys);
    if mode == PerOutputLocal then Swept(c, d1, Listed(d1.lists), d1.live) else d1
  }

  /** The lists of the outputs the pass looks after. */
  function Kept(mode: Mode, c: Context): seq<OutputKey> {
    if mode == Shared then [SHARED] else c.keys
  }

  // ---- what a pass may assume and what it keeps ----

  /** No desktop is live, listed or managed twice or before it was created. */
  ghost predicate Sound(c: Context, d: Domain) {
    && NoDup(d.live) && Partition(d.lists)
    && (forall id <- d.live :: id < d.next) && (forall id <- Listed(d.lists) :: id < d.next)
    && (forall id <- c.occupied :: id < d.next)
  }

  /** What a pass starts from; the shared mode takes its list from the live desktops. */
  ghost predicate Startable(mode: Mode, c: Context, d: Domain) {
    && NoDup(d.live) && (forall id <- d.live :: id < d.next) && (forall id <- c.occupied :: id < d.next)
    && (mode == Shared || Sound(c, d))
  }

  lemma StartableStill(mode: Mode, c: Context, c': Context, d: Domain)
    requires Startable(mode, c, d) && c'.occupied == c.occupied
    ensures Startable(mode, c', d)
  {
  }

  /** Lists and desktops agree, and a rebuild would change nothing. */
  ghost predicate Settled(mode: Mode, c: Context, d: Domain, primary: OutputKey) {
    && Sound(c, d) && Covers(d.lists, d.live)
    && match mode
       case PerOutputLocal => primary in d.lists
       case GlobalUnique => forall key <- d.lists :: key in c.keys || key in c.origins || d.lists[key] != []
       case Shared => d.lists == map[SHARED := d.live] && forall id <- d.live :: id in d.managed
  }

  lemma RebuildSettles(mode: Mode, c: Context, d: Domain, primary: OutputKey)
    requires Startable(mode, c, d) && Kept(mode, c) != []
    ensures Settled(mode, c, Rebuild(mode, c, d, primary), primary)
  {
    match mode {
      case PerOutputLocal =>
        RebuiltCovers(d.lists, d.live, primary);
        SettledListsSound(c, d, Rebuild(mode, c, d, primary));
      case GlobalUnique =>
        RebuiltGlobalCovers(d.lists, d.live, SetOf(c.keys) + c.origins, primary);
        SettledListsSound(c, d, Rebuild(mode, c, d, primary));
      case Shared =>
        assert forall x :: x in Listed(map[SHARED := d.live]) <==> x in map[SHARED := d.live][SHARED];
    }
  }

  lemma SettledListsSound(c: Context, d: Domain, e: Domain)
    requires Sound(c, d) && e.live == d.live && e.next == d.next && Covers(e.lists, d.live)
    ensures Sound(c, e)
  {
  }

  lemma RebuiltGlobalCovers(lists: Lists, live: seq<DesktopId>, held: set<OutputKey>, primary: OutputKey)
    requires Partition(lists) && NoDup(live)
    ensures Covers(RebuiltGlobal(lists, live, held, primary), live)
    ensures forall key <- RebuiltGlobal(lists, live, held, primary) :: key in held || RebuiltGlobal(lists, live, held, primary)[key] != []
    ensures forall x :: x in Unlisted(KeptLive(lists, live), live) <==> x in live && x !in Listed(lists)
  {
    var all := KeptLive(lists, live);
    var kept := map key | key in lists && (key in held || Only(lists[key], live) != []) :: Only(lists[key], live);
    KeptLiveKeeps(lists, live);
    UnlistedMembers(all, live);
    assert forall x :: x in Listed(all) <==> x in Listed(kept) by {
      forall x | x in Listed(all)
        ensures x in Listed(kept)
      {
        var key :| key in all && x in all[key];
        assert key in kept && kept[key] == all[key];
      }
      forall x | x in Listed(kept)
        ensures x in Listed(all)
      {
        var key :| key in kept && x in kept[key];
        assert key in all && kept[key] == all[key];
      }
    }
    assert Partition(kept) by {
      assert forall key <- kept :: key in all && kept[key] == all[key];
    }
    UnlistedMembers(kept, live);
    AppendedKeeps(kept, primary, Unlisted(kept, live));
    assert forall x <- live :: x in Listed(kept) || x in Unlisted(kept, live);
  }

  lemma RebuildIdle(mode: Mode, c: Context, d: Domain, primary: OutputKey)
    requires Settled(mode, c, d, primary)
    ensures Rebuild(mode, c, d, primary) == d
  {
    KeptLiveIdle(d.lists, d.live);
    match mode {
      case PerOutputLocal =>
        RebuiltIdle(d.lists, d.live, primary);
      case GlobalUnique =>
        var held := SetOf(c.keys) + c.origins;
        var kept := map key | key in d.lists && (key in held || Only(d.lists[key], d.live) != []) :: Only(d.lists[key], d.live);
        assert kept == d.lists by {
          assert forall key <- d.lists :: KeptLive(d.lists, d.live)[key] == d.lists[key];
        }
      case Shared =>
        assert d.managed + SetOf(d.live) == d.managed;
    }
  }

  lemma KeptLiveIdle(lists: Lists, live: seq<DesktopId>)
    requires Covers(lists, live)
    ensures KeptLive(lists, live) == lists && Unlisted(lists, live) == []
  {
    forall key | key in lists
      ensures Only(lists[key], live) == lists[key]
    {
      assert forall x <- lists[key] :: x in Listed(lists);
      OnlyMembers(lists[key], live);
    }
    var more := Unlisted(lists, live);
    assert more != [] ==> more[0] in more;
    UnlistedMembers(lists, live);
  }

  // ---- removals ----

  /** Later has come from earlier by retiring desktops of one list only. */
  ghost predicate Shrunk(c: Context, earlier: Domain, later: Domain, key: OutputKey) {
    && later.next == earlier.next && later.managed <= earlier.managed
    && (forall id <- later.live :: id in earlier.live)
    && |later.live| <= |earlier.live| && Last(later.live) == Last(earlier.live)
    && later.lists.Keys == earlier.lists.Keys
    && (forall k <- earlier.lists | k != key :: later.lists[k] == earlier.lists[k])
    && |At(later.lists, key)| <= |At(earlier.lists, key)|
    && (forall id <- At(later.lists, key) :: id in At(earlier.lists, key))
    && (forall id <- earlier.live | id !in later.live :: id in earlier.managed && Retirable(c, id) && Last(earlier.live) != Some(id))
    && (|earlier.live| >= MIN_DESKTOPS ==> |later.live| >= MIN_DESKTOPS)
  }

  /** No guard of the context holds the desktop. */
  predicate Retirable(c: Context, id: DesktopId) {
    id !in c.visible && id !in c.kept && id !in c.occupied
  }

  lemma ShrunkTransitive(c: Context, a: Domain, b: Domain, e: Domain, key: OutputKey)
    requires Shrunk(c, a, b, key) && Shrunk(c, b, e, key)
    ensures Shrunk(c, a, e, key)
  {
  }

  lemma ShrunkSelf(c: Context, d: Domain, key: OutputKey)
    ensures Shrunk(c, d, d, key)
  {
  }

  lemma {:induction false} LastWithout(s: seq<DesktopId>, id: DesktopId)
    requires Last(s) != Some(id)
    ensures Last(Without(s, [id])) == Last(s)
  {
    if s != [] {
      LastWithout(s[1..], id);
      WithoutMembers(s[1..], [id]);
      assert |s| > 1 ==> s[|s| - 1] in s[1..];
    }
  }

  lemma {:induction false} WithoutOneLength(s: seq<DesktopId>, id: DesktopId)
    requires NoDup(s)
    ensures |Without(s, [id])| == |s| - if id in s then 1 else 0
  {
    if s != [] {
      if s[0] == id {
        WithoutNone(s[1..], [id]);
      } else {
        WithoutOneLength(s[1..], id);
      }
    }
  }

  /** On lists that cover the live desktops a removal touches only the list that names the desktop. */
  lemma DroppedShrinks(mode: Mode, c: Context, d: Domain, primary: OutputKey, key: OutputKey, id: DesktopId, count: nat)
    requires Settled(mode, c, d, primary) && Removable(c, d, id, count) && id in At(d.lists, key)
    requires key in Kept(mode, c)
    ensures Settled(mode, c, Dropped(d, id), primary)
    ensures Shrunk(c, d, Dropped(d, id), key)
    ensures Dropped(d, id).lists[key] == Without(d.lists[key], [id])
    ensures id !in Dropped(d, id).live && id !in At(Dropped(d, id).lists, key)
  {
    var e := Dropped(d, id);
    WithoutMembers(d.live, [id]);
    WithoutOneLength(d.live, id);
    LastWithout(d.live, id);
    RemovedKeeps(d.lists, [id]);
    WithoutMembers(d.lists[key], [id]);
    WithoutOneLength(d.lists[key], id);
    forall k | k in d.lists && k != key
      ensures e.lists[k] == d.lists[k]
    {
      WithoutNone(d.lists[k], [id]);
    }
  }

  /** One attempt takes the desktop off the list and out, or leaves everything as it was. */
  lemma AttemptedShrinks(mode: Mode, c: Context, d: Domain, primary: OutputKey, key: OutputKey, id: DesktopId, trailing: Option<DesktopId>)
    requires Settled(mode, c, d, primary) && key in Kept(mode, c) && id in At(d.lists, key)
    ensures var e := Attempted(c, d, key, id, trailing);
            && Settled(mode, c, e, primary) && Shrunk(c, d, e, key)
            && (forall x <- At(d.lists, key) | x != id :: x in At(e.lists, key))
            && (Some(id) == trailing || id !in e.live || !Removable(c, e, id, |At(e.lists, key)|))
    ensures Last(At(d.lists, key)) != Some(id) || Some(id) == trailing || id in c.occupied ==>
              Last(At(Attempted(c, d, key, id, trailing).lists, key)) == Last(At(d.lists, key))
  {
    if Some(id) != trailing && Removable(c, d, id, |At(d.lists, key)|) {
      DroppedShrinks(mode, c, d, primary, key, id, |At(d.lists, key)|);
      WithoutMembers(At(d.lists, key), [id]);
      if Last(At(d.lists, key)) != Some(id) {
        LastWithout(At(d.lists, key), id);
      }
    } else {
      ShrunkSelf(c, d, key);
    }
  }

  /** A guard that held back a removal still holds after other removals. */
  lemma StaysGuarded(c: Context, d: Domain, e: Domain, key: OutputKey, id: DesktopId, before: nat, after: nat)
    requires Shrunk(c, d, e, key) && !Removable(c, d, id, before) && after <= before && id in e.live
    ensures !Removable(c, e, id, after)
  {
  }

  /** Retiring keeps lists and desktops in step, leaves the other lists alone and keeps a
      protected last desktop last. */
  lemma {:induction false} RetiredShrinks(mode: Mode, c: Context, d: Domain, primary: OutputKey, key: OutputKey,
                                          candidates: seq<DesktopId>, trailing: Option<DesktopId>)
    requires Settled(mode, c, d, primary) && key in Kept(mode, c)
    requires NoDup(candidates) && forall id <- candidates :: id in At(d.lists, key)
    ensures Settled(mode, c, Retired(c, d, key, candidates, trailing), primary)
    ensures Shrunk(c, d, Retired(c, d, key, candidates, trailing), key)
    ensures Protected(c, Last(At(d.lists, key)), trailing) ==>
              Last(At(Retired(c, d, key, candidates, trailing).lists, key)) == Last(At(d.lists, key))
    decreases |candidates|
  {
    if candidates == [] {
      ShrunkSelf(c, d, key);
    } else {
      var d1 := Attempted(c, d, key, candidates[0], trailing);
      AttemptedShrinks(mode, c, d, primary, key, candidates[0], trailing);
      RetiredShrinks(mode, c, d1, primary, key, candidates[1..], trailing);
      ShrunkTransitive(c, d, d1, Retired(c, d1, key, candidates[1..], trailing), key);
    }
  }

  /** The last of a list is either the trailing empty one or has windows. */
  predicate Protected(c: Context, last: Option<DesktopId>, trailing: Option<DesktopId>) {
    last == trailing || (last.Some? && last.value in c.occupied)
  }

  /** Afterwards no candidate but the trailing one can be removed. */
  lemma {:induction false} RetiredSticks(mode: Mode, c: Context, d: Domain, primary: OutputKey, key: OutputKey,
                                         candidates: seq<DesktopId>, trailing: Option<DesktopId>, id: DesktopId)
    requires Settled(mode, c, d, primary) && key in Kept(mode, c)
    requires NoDup(candidates) && forall id <- candidates :: id in At(d.lists, key)
    requires id in candidates && Some(id) != trailing && id in Retired(c, d, key, candidates, trailing).live
    ensures var e := Retired(c, d, key, candidates, trailing); !Removable(c, e, id, |At(e.lists, key)|)
    decreases |candidates|
  {
    hide Settled, Shrunk, Removable, Attempted;
    var d1 := Attempted(c, d, key, candidates[0], trailing);
    AttemptedShrinks(mode, c, d, primary, key, candidates[0], trailing);
    RetiredShrinks(mode, c, d1, primary, key, candidates[1..], trailing);
    var e := Retired(c, d1, key, candidates[1..], trailing);
    if id == candidates[0] {
      StaysGuarded(c, d1, e, key, id, |At(d1.lists, key)|, |At(e.lists, key)|);
    } else {
      RetiredSticks(mode, c, d1, primary, key, candidates[1..], trailing, id);
    }
  }

  /** With two desktops or fewer, on the list or in all, nothing is retired. */
  lemma {:induction false} RetiredFloor(c: Context, d: Domain, key: OutputKey, candidates: seq<DesktopId>, trailing: Option<DesktopId>)
    requires |d.live| <= MIN_DESKTOPS || |At(d.lists, key)| <= MIN_DESKTOPS
    ensures Retired(c, d, key, candidates, trailing) == d
    decreases |candidates|
  {
    if candidates != [] { RetiredFloor(c, d, key, candidates[1..], trailing); }
  }

  /** Desktops are retired from the front: when a later candidate goes and an earlier one stays, a guard
      other than the counts holds the earlier one. */
  lemma {:induction false} RetiredInOrder(mode: Mode, c: Context, d: Domain, primary: OutputKey, key: OutputKey,
                                          candidates: seq<DesktopId>, trailing: Option<DesktopId>, i: nat, j: nat)
    requires Settled(mode, c, d, primary) && key in Kept(mode, c)
    requires NoDup(candidates) && forall id <- candidates :: id in At(d.lists, key)
    requires i < j < |candidates| && Some(candidates[i]) != trailing && candidates[j] in d.live
    requires var e := Retired(c, d, key, candidates, trailing); candidates[i] in e.live && candidates[j] !in e.live
    ensures candidates[i] !in d.managed || !Retirable(c, candidates[i]) || Last(d.live) == Some(candidates[i])
    decreases |candidates|
  {
    hide Settled;
    var id := candidates[0];
    var d1 := Attempted(c, d, key, id, trailing);
    AttemptedShrinks(mode, c, d, primary, key, id, trailing);
    RetiredShrinks(mode, c, d1, primary, key, candidates[1..], trailing);
    WithoutMembers(d.live, [id]);
    if i > 0 {
      RetiredInOrder(mode, c, d1, primary, key, candidates[1..], trailing, i - 1, j - 1);
    } else if |d.live| <= MIN_DESKTOPS || |At(d.lists, key)| <= MIN_DESKTOPS {
      RetiredFloor(c, d, key, candidates, trailing);
    }
  }

  // ---- one list ----

  predicate SpareLast(occupied: set<DesktopId>, list: seq<DesktopId>) {
    list != [] && list[|list| - 1] !in occupied
  }

  /** The list ends in a desktop without windows. */
  ghost predicate EndsEmpty(c: Context, d: Domain, key: OutputKey) {
    SpareLast(c.occupied, At(d.lists, key))
  }

  /** Nothing on the list but its last desktop could be retired. */
  ghost predicate Stuck(c: Context, d: Domain, key: OutputKey) {
    forall id <- At(d.lists, key) :: Last(At(d.lists, key)) == Some(id) || !Removable(c, d, id, |At(d.lists, key)|)
  }

  /** A new desktop is the last of all and of its list. */
  lemma CreatedLast(d: Domain, key: OutputKey)
    ensures var e := Created(d, key);
            && e.live == d.live + [d.next] && At(e.lists, key) == At(d.lists, key) + [d.next]
            && At(e.lists, key)[..|At(e.lists, key)| - 1] == At(d.lists, key)
  {
  }

  lemma CreatedSettled(mode: Mode, c: Context, d: Domain, primary: OutputKey, key: OutputKey)
    requires Settled(mode, c, d, primary) && key in Kept(mode, c)
    ensures Settled(mode, c, Created(d, key), primary)
    ensures EndsEmpty(c, Created(d, key), key)
    ensures forall k | k != key :: At(Created(d, key).lists, k) == At(d.lists, k)
  {
    assert d.next !in Listed(d.lists) && d.next !in d.live;
    AppendedKeeps(d.lists, key, [d.next]);
    NoDupConcat(d.live, [d.next]);
  }

  /** After its turn a list ends empty, and the other lists are as they were. */
  lemma WithTrailingEnds(mode: Mode, c: Context, d: Domain, primary: OutputKey, key: OutputKey)
    requires Settled(mode, c, d, primary) && key in Kept(mode, c)
    ensures Settled(mode, c, WithTrailing(c, d, key), primary)
    ensures EndsEmpty(c, WithTrailing(c, d, key), key)
    ensures forall k | k != key :: At(WithTrailing(c, d, key).lists, k) == At(d.lists, k)
  {
    var list := At(d.lists, key);
    var d1 := Retired(c, d, key, list, Trailing(c, list));
    RetiredShrinks(mode, c, d, primary, key, list, Trailing(c, list));
    CreatedSettled(mode, c, d1, primary, key);
  }

  /** A list that ends empty only loses desktops, and then nothing more can go. */
  lemma WithTrailingSticks(mode: Mode, c: Context, d: Domain, primary: OutputKey, key: OutputKey)
    requires Settled(mode, c, d, primary) && key in Kept(mode, c) && EndsEmpty(c, d, key)
    ensures Shrunk(c, d, WithTrailing(c, d, key), key)
    ensures EndsEmpty(c, WithTrailing(c, d, key), key) && Stuck(c, WithTrailing(c, d, key), key)
  {
    var list := At(d.lists, key);
    RetiredShrinks(mode, c, d, primary, key, list, Trailing(c, list));
    var e := WithTrailing(c, d, key);
    forall id | id in At(e.lists, key) && Last(At(e.lists, key)) != Some(id)
      ensures !Removable(c, e, id, |At(e.lists, key)|)
    {
      assert id in Listed(e.lists);
      RetiredSticks(mode, c, d, primary, key, list, Trailing(c, list), id);
    }
  }

  lemma {:induction false} RetiredIdle(c: Context, d: Domain, key: OutputKey, candidates: seq<DesktopId>, trailing: Option<DesktopId>)
    requires forall id <- candidates :: Some(id) == trailing || !Removable(c, d, id, |At(d.lists, key)|)
    ensures Retired(c, d, key, candidates, trailing) == d
    decreases |candidates|
  {
    if candidates != [] { RetiredIdle(c, d, key, candidates[1..], trailing); }
  }

  lemma WithTrailingIdle(c: Context, d: Domain, key: OutputKey)
    requires EndsEmpty(c, d, key) && Stuck(c, d, key)
    ensures WithTrailing(c, d, key) == d
  {
    RetiredIdle(c, d, key, At(d.lists, key), Trailing(c, At(d.lists, key)));
  }

  // ---- all lists ----

  /** A first pass makes every list end empty. */
  lemma {:induction false} EnforcedEnds(mode: Mode, c: Context, d: Domain, primary: OutputKey, keys: seq<OutputKey>, k: OutputKey)
    requires Settled(mode, c, d, primary) && forall key <- keys :: key in Kept(mode, c)
    ensures Settled(mode, c, Enforced(c, d, keys), primary)
    ensures k in keys || EndsEmpty(c, d, k) ==> EndsEmpty(c, Enforced(c, d, keys), k)
    decreases |keys|
  {
    if keys != [] {
      WithTrailingEnds(mode, c, d, primary, keys[0]);
      EnforcedEnds(mode, c, WithTrailing(c, d, keys[0]), primary, keys[1..], k);
    }
  }

  /** A list nothing can be retired from stays so while other lists shrink. */
  lemma StaysStuck(mode: Mode, c: Context, d: Domain, e: Domain, primary: OutputKey, key: OutputKey, k: OutputKey)
    requires Settled(mode, c, e, primary) && Shrunk(c, d, e, key) && k != key && Stuck(c, d, k)
    ensures Stuck(c, e, k) && At(e.lists, k) == At(d.lists, k)
  {
    forall id | id in At(e.lists, k) && Last(At(e.lists, k)) != Some(id)
      ensures !Removable(c, e, id, |At(e.lists, k)|)
    {
      assert id in Listed(e.lists);
      StaysGuarded(c, d, e, key, id, |At(d.lists, k)|, |At(e.lists, k)|);
    }
  }

  /** When every list ends empty, a pass retires what can go and leaves nothing to retire. */
  lemma {:induction false} EnforcedSticks(mode: Mode, c: Context, d: Domain, primary: OutputKey, keys: seq<OutputKey>, k: OutputKey)
    requires Settled(mode, c, d, primary) && forall key <- keys :: key in Kept(mode, c) && EndsEmpty(c, d, key)
    requires NoDup(keys) && EndsEmpty(c, d, k)
    requires k in keys || Stuck(c, d, k)
    ensures Settled(mode, c, Enforced(c, d, keys), primary)
    ensures EndsEmpty(c, Enforced(c, d, keys), k) && Stuck(c, Enforced(c, d, keys), k)
    decreases |keys|
  {
    if keys != [] {
      var e := WithTrailing(c, d, keys[0]);
      WithTrailingEnds(mode, c, d, primary, keys[0]);
      WithTrailingSticks(mode, c, d, primary, keys[0]);
      if k != keys[0] && k !in keys[1..] {
        StaysStuck(mode, c, d, e, primary, keys[0], k);
      }
      forall key | key in keys[1..]
        ensures key != keys[0] && EndsEmpty(c, e, key)
      {
        assert key in keys && EndsEmpty(c, d, key);
      }
      EnforcedSticks(mode, c, e, primary, keys[1..], k);
    }
  }

  lemma {:induction false} EnforcedIdle(c: Context, d: Domain, keys: seq<OutputKey>)
    requires forall key <- keys :: EndsEmpty(c, d, key) && Stuck(c, d, key)
    ensures Enforced(c, d, keys) == d
    decreases |keys|
  {
    if keys != [] {
      WithTrailingIdle(c, d, keys[0]);
      EnforcedIdle(c, d, keys[1..]);
    }
  }

  /** With every desktop on a list there is nothing to sweep. */
  lemma {:induction false} SweptIdle(c: Context, d: Domain, listed: set<DesktopId>, candidates: seq<DesktopId>)
    requires forall id <- candidates :: id in listed || !Removable(c, d, id, MIN_DESKTOPS + 1)
    ensures Swept(c, d, listed, candidates) == d
    decreases |candidates|
  {
    if candidates != [] { SweptIdle(c, d, listed, candidates[1..]); }
  }

  /** Sweeping leaves the lists alone, and afterwards no candidate off the lists can be removed. */
  lemma {:induction false} SweptSticks(c: Context, d: Domain, candidates: seq<DesktopId>, id: DesktopId)
    requires Sound(c, d)
    ensures var e := Swept(c, d, Listed(d.lists), candidates);
            && Sound(c, e) && e.lists == d.lists && Shrunk(c, d, e, SHARED)
            && (id in candidates && id in e.live && id !in Listed(d.lists) ==> !Removable(c, e, id, MIN_DESKTOPS + 1))
    decreases |candidates|
  {
    if candidates == [] {
      ShrunkSelf(c, d, SHARED);
    } else {
      var d1 := if candidates[0] in Listed(d.lists) then d else TryRemove(c, d, candidates[0], MIN_DESKTOPS + 1);
      SweepStep(c, d, candidates[0]);
      SweptSticks(c, d1, candidates[1..], id);
      var e := Swept(c, d1, Listed(d.lists), candidates[1..]);
      ShrunkTransitive(c, d, d1, e, SHARED);
      if id == candidates[0] && id in e.live && id !in Listed(d.lists) {
        StaysGuarded(c, d1, e, SHARED, id, MIN_DESKTOPS + 1, MIN_DESKTOPS + 1);
      }
    }
  }

  lemma SweepStep(c: Context, d: Domain, id: DesktopId)
    requires Sound(c, d)
    ensures var e := if id in Listed(d.lists) then d else TryRemove(c, d, id, MIN_DESKTOPS + 1);
            && Sound(c, e) && e.lists == d.lists && Shrunk(c, d, e, SHARED)
            && (id in Listed(d.lists) || id !in e.live || !Removable(c, e, id, MIN_DESKTOPS + 1))
  {
    ShrunkSelf(c, d, SHARED);
    if id !in Listed(d.lists) && Removable(c, d, id, MIN_DESKTOPS + 1) {
      WithoutMembers(d.live, [id]);
      WithoutOneLength(d.live, id);
      LastWithout(d.live, id);
      forall k | k in d.lists
        ensures Without(d.lists[k], [id]) == d.lists[k]
      {
        assert id !in d.lists[k];
        WithoutNone(d.lists[k], [id]);
      }
      assert Removed(d.lists, [id]) == d.lists;
    }
  }

  // ---- passes ----

  lemma PassOnSettled(mode: Mode, c: Context, d: Domain, primary: OutputKey)
    requires Settled(mode, c, d, primary) && Kept(mode, c) != []
    ensures Pass(mode, c, d, primary) == Enforced(c, d, Kept(mode, c))
  {
    RebuildIdle(mode, c, d, primary);
    PassIsEnforced(mode, c, d, primary);
  }

  lemma PassIsEnforced(mode: Mode, c: Context, d: Domain, primary: OutputKey)
    requires Settled(mode, c, Rebuild(mode, c, d, primary), primary)
    ensures Pass(mode, c, d, primary) == Enforced(c, Rebuild(mode, c, d, primary), Kept(mode, c))
  {
    var r := Rebuild(mode, c, d, primary);
    var e := Enforced(c, r, Kept(mode, c));
    EnforcedEnds(mode, c, r, primary, Kept(mode, c), primary);
    SweptIdle(c, e, Listed(e.lists), e.live);
  }

  /** With windows, views and kept desktops fixed, two passes reach a fixed point in every mode;
      one pass already makes every connected output's list end in an empty desktop. */
  lemma TwoPassesSettle(mode: Mode, c: Context, d: Domain, primary: OutputKey)
    requires Startable(mode, c, d) && NoDup(c.keys)
    ensures var one := Pass(mode, c, d, primary);
            var two := Pass(mode, c, one, primary);
            && (forall key <- Kept(mode, c) :: EndsEmpty(c, one, key) && EndsEmpty(c, two, key))
            && (Kept(mode, c) != [] ==> Covers(two.lists, two.live))
            && Pass(mode, c, two, primary) == two
            && (forall key <- Kept(mode, c) :: NothingSpare(c, two, At(two.lists, key)))
  {
    if Kept(mode, c) == [] {
      NoOutputSettles(mode, c, d, primary);
    } else {
      ConnectedSettle(mode, c, d, primary);
      forall key | key in Kept(mode, c)
        ensures NothingSpare(c, Pass(mode, c, Pass(mode, c, d, primary), primary), At(Pass(mode, c, Pass(mode, c, d, primary), primary).lists, key))
      {
        StuckMeans(c, Pass(mode, c, Pass(mode, c, d, primary), primary), key);
      }
    }
  }

  /** Every desktop of the list but its last is unmanaged, in view, kept, with windows, the last of all, or one
      of two, on the list or altogether. */
  ghost predicate NothingSpare(c: Context, d: Domain, list: seq<DesktopId>) {
    forall i | 0 <= i < |list| - 1 ::
      || list[i] !in d.managed || list[i] in c.visible || list[i] in c.kept || list[i] in c.occupied
      || |list| <= 2 || |d.live| <= 2 || d.live[|d.live| - 1] == list[i]
  }

  lemma StuckMeans(c: Context, d: Domain, key: OutputKey)
    requires Stuck(c, d, key) && Covers(d.lists, d.live)
    ensures NothingSpare(c, d, At(d.lists, key))
  {
    var list := At(d.lists, key);
    forall i | 0 <= i < |list| - 1
      ensures list[i] in d.live && Last(list) != Some(list[i])
    {
      assert key in d.lists && list[i] in d.lists[key] && list[i] in Listed(d.lists);
    }
  }

  /** Without an identified output a pass at most sweeps, and sweeping once is enough. */
  lemma NoOutputSettles(mode: Mode, c: Context, d: Domain, primary: OutputKey)
    requires Sound(c, d) && Kept(mode, c) == []
    ensures Pass(mode, c, Pass(mode, c, d, primary), primary) == Pass(mode, c, d, primary)
  {
    if mode == PerOutputLocal {
      var e := Pass(mode, c, d, primary);
      forall id | id in d.live
        ensures e.lists == d.lists && (id in Listed(d.lists) || id !in e.live || !Removable(c, e, id, MIN_DESKTOPS + 1))
      {
        SweptSticks(c, d, d.live, id);
      }
      SweptSticks(c, d, d.live, 0);
      SweptIdle(c, e, Listed(e.lists), e.live);
    }
  }

  lemma ConnectedSettle(mode: Mode, c: Context, d: Domain, primary: OutputKey)
    requires Startable(mode, c, d) && NoDup(c.keys) && Kept(mode, c) != []
    ensures var one := Pass(mode, c, d, primary);
            var two := Pass(mode, c, one, primary);
            && (forall key <- Kept(mode, c) :: EndsEmpty(c, one, key) && EndsEmpty(c, two, key) && Stuck(c, two, key))
            && Covers(two.lists, two.live)
            && Pass(mode, c, two, primary) == two
  {
    var keys := Kept(mode, c);
    var r := Rebuild(mode, c, d, primary);
    RebuildSettles(mode, c, d, primary);
    PassIsEnforced(mode, c, d, primary);
    var one := Pass(mode, c, d, primary);
    forall key | key in keys
      ensures EndsEmpty(c, one, key)
    {
      EnforcedEnds(mode, c, r, primary, keys, key);
    }
    EnforcedEnds(mode, c, r, primary, keys, keys[0]);
    PassOnSettled(mode, c, one, primary);
    var two := Pass(mode, c, one, primary);
    forall key | key in keys
      ensures EndsEmpty(c, two, key) && Stuck(c, two, key)
    {
      EnforcedSticks(mode, c, one, primary, keys, key);
    }
    EnforcedEnds(mode, c, one, primary, keys, keys[0]);
    PassOnSettled(mode, c, two, primary);
    EnforcedIdle(c, two, keys);
  }

  /** Two passes away from where it started, ending empty everywhere and left alone by another pass. */
  ghost predicate FixedPoint(mode: Mode, c: Context, start: Domain, primary: OutputKey, now: Domain) {
    && now == Pass(mode, c, Pass(mode, c, start, primary), primary)
    && now == Pass(mode, c, now, primary)
    && forall key <- Kept(mode, c) :: EndsEmpty(c, now, key) && NothingSpare(c, now, At(now.lists, key))
  }

  lemma FixedAfterTwo(mode: Mode, c: Context, start: Domain, primary: OutputKey, one: Domain, two: Domain, three: Domain)
    requires Startable(mode, c, start) && NoDup(c.keys)
    requires one == Pass(mode, c, start, primary) && two == Pass(mode, c, one, primary) && three == Pass(mode, c, two, primary)
    ensures FixedPoint(mode, c, start, primary, three)
  {
    TwoPassesSettle(mode, c, start, primary);
  }

  lemma SharedPass(c: Context, d: Domain)
    ensures Pass(Shared, c, d, SHARED) == WithTrailing(c, Rebuild(Shared, c, d, SHARED), SHARED)
  {
    var e := WithTrailing(c, Rebuild(Shared, c, d, SHARED), SHARED);
    assert [SHARED][1..] == [] && Enforced(c, e, []) == e;
  }

  lemma WithoutHead(s: seq<DesktopId>)
    requires s != [] && s[0] !in s[1..]
    ensures Without(s, [s[0]]) == s[1..]
  {
    WithoutNone(s[1..], [s[0]]);
  }

  /** One pass is not enough: the spare it appends can free an earlier empty desktop. */
  lemma OnePassMayNotSettle()
    ensures var c := Context([], {1}, {1}, {}, {});
            var d := Domain([0, 1], map[], {0, 1}, 2);
            && Pass(Shared, c, d, SHARED).live == [0, 1, 2]
            && Pass(Shared, c, Pass(Shared, c, d, SHARED), SHARED).live == [1, 2]
  {
    var c := Context([], {1}, {1}, {}, {});
    var d := Domain([0, 1], map[], {0, 1}, 2);
    var r := Rebuild(Shared, c, d, SHARED);
    SharedPass(c, d);
    RetiredIdle(c, r, SHARED, [0, 1], None);
    var one := WithTrailing(c, r, SHARED);
    assert one == Created(r, SHARED);
    assert one.live == [0, 1, 2] && one.managed == {0, 1, 2};
    SharedPass(c, one);
    SecondPass(c, Rebuild(Shared, c, one, SHARED));
  }

  lemma SecondPass(c: Context, d: Domain)
    requires c == Context([], {1}, {1}, {}, {}) && d.live == [0, 1, 2] && d.managed == {0, 1, 2} && d.lists == map[SHARED := d.live]
    ensures WithTrailing(c, d, SHARED).live == [1, 2]
  {
    WithoutHead(d.live);
    var e := Attempted(c, d, SHARED, 0, Some(2));
    assert At(d.lists, SHARED)[0] == 0 && At(d.lists, SHARED)[1..] == [1, 2];
    assert e.live == [1, 2] && e.lists[SHARED] == [1, 2];
    RetiredIdle(c, e, SHARED, [1, 2], Some(2));
  }

  // ---- no list runs short ----

  /** A list of two or more keeps two, and one of at most two loses nothing. */
  ghost predicate KeepsTwo(before: seq<DesktopId>, after: seq<DesktopId>) {
    (|before| >= 2 ==> |after| >= 2) && (|before| <= 2 ==> before <= after)
  }

  lemma {:induction false} RetiredKeepsTwo(mode: Mode, c: Context, d: Domain, primary: OutputKey, key: OutputKey,
                                           candidates: seq<DesktopId>, trailing: Option<DesktopId>)
    requires Settled(mode, c, d, primary) && key in Kept(mode, c)
    requires NoDup(candidates) && forall id <- candidates :: id in At(d.lists, key)
    ensures KeepsTwo(At(d.lists, key), At(Retired(c, d, key, candidates, trailing).lists, key))
    decreases |candidates|
  {
    if candidates != [] {
      var id, list := candidates[0], At(d.lists, key);
      var d1 := Attempted(c, d, key, id, trailing);
      AttemptedShrinks(mode, c, d, primary, key, id, trailing);
      RetiredKeepsTwo(mode, c, d1, primary, key, candidates[1..], trailing);
      if d1 != d {
        DroppedShrinks(mode, c, d, primary, key, id, |list|);
        WithoutOneLength(list, id);
      }
    }
  }

  /** One list's turn keeps two of its desktops, and all of at most two. */
  lemma TurnKeepsTwo(mode: Mode, c: Context, d: Domain, primary: OutputKey, key: OutputKey)
    requires Settled(mode, c, d, primary) && key in Kept(mode, c)
    ensures KeepsTwo(At(d.lists, key), At(WithTrailing(c, d, key).lists, key))
  {
    var list := At(d.lists, key);
    RetiredKeepsTwo(mode, c, d, primary, key, list, Trailing(c, list));
  }

  /** One list's turn retires from the front. */
  lemma TurnInOrder(mode: Mode, c: Context, d: Domain, primary: OutputKey, key: OutputKey, i: nat, j: nat)
    requires Settled(mode, c, d, primary) && key in Kept(mode, c)
    requires i < j < |At(d.lists, key)| && At(d.lists, key)[i] in WithTrailing(c, d, key).live
    requires At(d.lists, key)[j] !in WithTrailing(c, d, key).live
    ensures var id := At(d.lists, key)[i]; id !in d.managed || !Retirable(c, id) || Last(d.live) == Some(id)
  {
    var list := At(d.lists, key);
    assert list == d.lists[key] && list[i] in d.lists[key] && list[j] in d.lists[key];
    assert list[i] in Listed(d.lists) && list[j] in Listed(d.lists);
    RetiredShrinks(mode, c, d, primary, key, list, Trailing(c, list));
    RetiredInOrder(mode, c, d, primary, key, list, Trailing(c, list), i, j);
  }

  lemma {:induction false} EnforcedKeepsTwo(mode: Mode, c: Context, d: Domain, primary: OutputKey, keys: seq<OutputKey>, k: OutputKey)
    requires Settled(mode, c, d, primary) && NoDup(keys) && forall key <- keys :: key in Kept(mode, c)
    ensures KeepsTwo(At(d.lists, k), At(Enforced(c, d, keys).lists, k))
    ensures k !in keys ==> At(Enforced(c, d, keys).lists, k) == At(d.lists, k)
    decreases |keys|
  {
    if keys != [] {
      WithTrailingEnds(mode, c, d, primary, keys[0]);
      TurnKeepsTwo(mode, c, d, primary, keys[0]);
      EnforcedKeepsTwo(mode, c, WithTrailing(c, d, keys[0]), primary, keys[1..], k);
    }
  }

  /** In every mode a pass keeps two of the desktops a list has once it is rebuilt, and all of at most two. */
  lemma PassKeepsTwo(mode: Mode, c: Context, d: Domain, primary: OutputKey, key: OutputKey)
    requires Startable(mode, c, d) && Kept(mode, c) != [] && NoDup(c.keys)
    ensures KeepsTwo(At(Rebuild(mode, c, d, primary).lists, key), At(Pass(mode, c, d, primary).lists, key))
    ensures Settled(mode, c, d, primary) ==> KeepsTwo(At(d.lists, key), At(Pass(mode, c, d, primary).lists, key))
  {
    RebuildSettles(mode, c, d, primary);
    PassIsEnforced(mode, c, d, primary);
    EnforcedKeepsTwo(mode, c, Rebuild(mode, c, d, primary), primary, Kept(mode, c), key);
    if Settled(mode, c, d, primary) { RebuildIdle(mode, c, d, primary); }
  }

  // ---- what a pass never removes ----

  /** Whatever a pass removed was managed, without windows, out of view and not kept, and no
      pass takes the desktops below two. */
  lemma PassRemovesOnlyRetirable(mode: Mode, c: Context, d: Domain, primary: OutputKey, id: DesktopId)
    requires Startable(mode, c, d) && Kept(mode, c) != []
    ensures var e := Pass(mode, c, d, primary);
            && (id in d.live && id !in e.live ==>
                  Retirable(c, id) && id in Rebuild(mode, c, d, primary).managed)
            && (|d.live| >= MIN_DESKTOPS ==> |e.live| >= MIN_DESKTOPS)
  {
    RebuildSettles(mode, c, d, primary);
    PassIsEnforced(mode, c, d, primary);
    EnforcedRemovesOnlyRetirable(mode, c, Rebuild(mode, c, d, primary), primary, Kept(mode, c), id);
  }

  lemma {:induction false} EnforcedRemovesOnlyRetirable(mode: Mode, c: Context, d: Domain, primary: OutputKey, keys: seq<OutputKey>, id: DesktopId)
    requires Settled(mode, c, d, primary) && forall key <- keys :: key in Kept(mode, c)
    ensures var e := Enforced(c, d, keys);
            && (id in d.live && id !in e.live ==> Retirable(c, id) && id in d.managed)
            && (|d.live| >= MIN_DESKTOPS ==> |e.live| >= MIN_DESKTOPS)
    decreases |keys|
  {
    if keys != [] {
      var key := keys[0];
      var list := At(d.lists, key);
      RetiredShrinks(mode, c, d, primary, key, list, Trailing(c, list));
      WithTrailingEnds(mode, c, d, primary, key);
      EnforcedRemovesOnlyRetirable(mode, c, WithTrailing(c, d, key), primary, keys[1..], id);
    }
  }

  // ---- room below the cap ----

  /** A pass over these lists never holds more desktops than can be read back. */
  ghost predicate RoomFor(c: Context, d: Domain, keys: seq<OutputKey>)
    decreases |keys|
  {
    |d.live| <= MAX_DESKTOPS && (keys != [] ==> RoomFor(c, WithTrailing(c, d, keys[0]), keys[1..]))
  }

  /** Once every list ends empty a pass only removes, so it stays below the cap. */
  lemma {:induction false} RoomOnceEmpty(mode: Mode, c: Context, d: Domain, primary: OutputKey, keys: seq<OutputKey>)
    requires Settled(mode, c, d, primary) && |d.live| <= MAX_DESKTOPS && NoDup(keys)
    requires forall key <- keys :: key in Kept(mode, c) && EndsEmpty(c, d, key)
    ensures RoomFor(c, d, keys) && |Enforced(c, d, keys).live| <= MAX_DESKTOPS
    decreases |keys|
  {
    if keys != [] {
      var e := WithTrailing(c, d, keys[0]);
      WithTrailingEnds(mode, c, d, primary, keys[0]);
      WithTrailingSticks(mode, c, d, primary, keys[0]);
      forall key | key in keys[1..]
        ensures key in Kept(mode, c) && EndsEmpty(c, e, key)
      {
        assert key in keys && key != keys[0] && EndsEmpty(c, d, key);
      }
      RoomOnceEmpty(mode, c, e, primary, keys[1..]);
    }
  }

  lemma {:induction false} RoomThroughout(c: Context, d: Domain, keys: seq<OutputKey>)
    requires RoomFor(c, d, keys)
    ensures |Enforced(c, d, keys).live| <= MAX_DESKTOPS
    decreases |keys|
  {
    if keys != [] { RoomThroughout(c, WithTrailing(c, d, keys[0]), keys[1..]); }
  }

  /** How many of the outputs' lists do not end in an empty desktop. */
  function Wanting(occupied: set<DesktopId>, lists: Lists, keys: seq<OutputKey>): nat {
    if keys == [] then 0
    else (if SpareLast(occupied, At(lists, keys[0])) then 0 else 1) + Wanting(occupied, lists, keys[1..])
  }

  lemma {:induction false} WantingSame(occupied: set<DesktopId>, a: Lists, b: Lists, keys: seq<OutputKey>)
    requires forall key <- keys :: At(a, key) == At(b, key)
    ensures Wanting(occupied, a, keys) == Wanting(occupied, b, keys)
  {
    if keys != [] {
      assert keys[0] in keys;
      WantingSame(occupied, a, b, keys[1..]);
    }
  }

  lemma {:induction false} WantingNone(occupied: set<DesktopId>, lists: Lists, keys: seq<OutputKey>)
    requires forall key <- keys :: SpareLast(occupied, At(lists, key))
    ensures Wanting(occupied, lists, keys) == 0
  {
    if keys != [] { WantingNone(occupied, lists, keys[1..]); }
  }

  /** A list's turn creates a desktop only when the list does not end in an empty one. */
  lemma TurnGrows(mode: Mode, c: Context, d: Domain, primary: OutputKey, key: OutputKey)
    requires Settled(mode, c, d, primary) && key in Kept(mode, c)
    ensures |WithTrailing(c, d, key).live| <= |d.live| + if EndsEmpty(c, d, key) then 0 else 1
    ensures EndsEmpty(c, d, key) ==> Last(At(WithTrailing(c, d, key).lists, key)) == Last(At(d.lists, key))
  {
    var list := At(d.lists, key);
    RetiredShrinks(mode, c, d, primary, key, list, Trailing(c, list));
  }

  /** Room for one desktop per list that does not end empty is room for the pass. */
  lemma {:induction false} RoomByCount(mode: Mode, c: Context, d: Domain, primary: OutputKey, keys: seq<OutputKey>)
    requires Settled(mode, c, d, primary) && NoDup(keys) && forall key <- keys :: key in Kept(mode, c)
    requires |d.live| + Wanting(c.occupied, d.lists, keys) <= MAX_DESKTOPS
    ensures RoomFor(c, d, keys)
    decreases |keys|
  {
    if keys != [] {
      var e := WithTrailing(c, d, keys[0]);
      TurnGrows(mode, c, d, primary, keys[0]);
      WithTrailingEnds(mode, c, d, primary, keys[0]);
      WantingSame(c.occupied, d.lists, e.lists, keys[1..]);
      RoomByCount(mode, c, e, primary, keys[1..]);
    }
  }

  /** A last desktop without windows stays last. */
  lemma {:induction false} EnforcedKeepsLast(mode: Mode, c: Context, d: Domain, primary: OutputKey, keys: seq<OutputKey>, k: OutputKey)
    requires Settled(mode, c, d, primary) && EndsEmpty(c, d, k) && forall key <- keys :: key in Kept(mode, c)
    ensures Last(At(Enforced(c, d, keys).lists, k)) == Last(At(d.lists, k))
    decreases |keys|
  {
    if keys != [] {
      TurnGrows(mode, c, d, primary, keys[0]);
      WithTrailingEnds(mode, c, d, primary, keys[0]);
      EnforcedKeepsLast(mode, c, WithTrailing(c, d, keys[0]), primary, keys[1..], k);
    }
  }

  /** A local pass with that room fits, and the next needs none. */
  lemma RoomyPass(c: Context, d: Domain, primary: OutputKey)
    requires Startable(PerOutputLocal, c, d) && c.keys != [] && NoDup(c.keys)
    requires |d.live| + Wanting(c.occupied, Rebuilt(d.lists, d.live, primary), c.keys) <= MAX_DESKTOPS
    ensures Fits(PerOutputLocal, c, d, primary)
    ensures var e := Pass(PerOutputLocal, c, d, primary);
            && 0 < |e.live| <= MAX_DESKTOPS && Covers(e.lists, e.live)
            && Wanting(c.occupied, Rebuilt(e.lists, e.live, primary), c.keys) == 0
  {
    var r, e := Rebuild(PerOutputLocal, c, d, primary), Pass(PerOutputLocal, c, d, primary);
    RebuildSettles(PerOutputLocal, c, d, primary);
    RoomByCount(PerOutputLocal, c, r, primary, c.keys);
    AfterPass(PerOutputLocal, c, d, primary);
    EnforcedEnds(PerOutputLocal, c, r, primary, c.keys, primary);
    RebuildIdle(PerOutputLocal, c, e, primary);
    forall key | key in c.keys
      ensures SpareLast(c.occupied, At(e.lists, key))
    {
      EnforcedEnds(PerOutputLocal, c, r, primary, c.keys, key);
    }
    WantingNone(c.occupied, e.lists, c.keys);
  }

  /** A local pass keeps the last desktop of a list when it has no windows and every live desktop is listed. */
  lemma LastKept(c: Context, d: Domain, primary: OutputKey, key: OutputKey, id: DesktopId)
    requires Startable(PerOutputLocal, c, d) && c.keys != [] && Covers(d.lists, d.live)
    requires Last(At(d.lists, key)) == Some(id) && id !in c.occupied
    ensures var e := Pass(PerOutputLocal, c, d, primary); Last(At(e.lists, key)) == Some(id) && id in e.live
  {
    var r, e := Rebuild(PerOutputLocal, c, d, primary), Pass(PerOutputLocal, c, d, primary);
    RebuildSettles(PerOutputLocal, c, d, primary);
    PassIsEnforced(PerOutputLocal, c, d, primary);
    KeptLiveIdle(d.lists, d.live);
    assert At(r.lists, key) == At(d.lists, key) by { assert At(d.lists, primary) + [] == At(d.lists, primary); }
    EnforcedKeepsLast(PerOutputLocal, c, r, primary, c.keys, key);
    EnforcedEnds(PerOutputLocal, c, r, primary, c.keys, key);
    assert key in e.lists && id in e.lists[key] && id in Listed(e.lists);
  }

  // ---- one list, step by step ----

  /** The candidates up to the i-th have been tried. */
  ghost predicate Progress(mode: Mode, c: Context, primary: OutputKey, start: Domain, key: OutputKey, i: nat,
                           removed: seq<DesktopId>, d: Domain)
    requires i <= |At(start.lists, key)|
  {
    var list := At(start.lists, key);
    var trailing := Trailing(c, list);
    && Settled(mode, c, d, primary) && Shrunk(c, start, d, key) && key in Kept(mode, c)
    && NoDup(list) && (forall id <- list[i..] :: id in At(d.lists, key))
    && Retired(c, d, key, list[i..], trailing) == Retired(c, start, key, list, trailing)
    && At(d.lists, key) == Without(list, removed)
  }

  lemma ProgressStart(mode: Mode, c: Context, primary: OutputKey, start: Domain, key: OutputKey)
    requires Settled(mode, c, start, primary) && key in Kept(mode, c)
    ensures Progress(mode, c, primary, start, key, 0, [], start)
  {
    var list := At(start.lists, key);
    ShrunkSelf(c, start, key);
    assert list[0..] == list;
    WithoutNone(list, []);
  }

  lemma ProgressStep(mode: Mode, c: Context, primary: OutputKey, start: Domain, key: OutputKey, i: nat,
                     removed: seq<DesktopId>, d: Domain)
    requires i < |At(start.lists, key)| && Progress(mode, c, primary, start, key, i, removed, d)
    ensures var id, trailing := At(start.lists, key)[i], Trailing(c, At(start.lists, key));
            var gone := Some(id) != trailing && Removable(c, d, id, |At(d.lists, key)|);
            Progress(mode, c, primary, start, key, i + 1, if gone then removed + [id] else removed, Attempted(c, d, key, id, trailing))
  {
    hide Settled, Shrunk, Trailing;
    var list := At(start.lists, key);
    var id, trailing := list[i], Trailing(c, list);
    var e := Attempted(c, d, key, id, trailing);
    assert id in list[i..];
    AttemptedShrinks(mode, c, d, primary, key, id, trailing);
    ShrunkTransitive(c, start, d, e, key);
    assert list[i..][1..] == list[i + 1..];
    if Some(id) != trailing && Removable(c, d, id, |At(d.lists, key)|) {
      DroppedShrinks(mode, c, d, primary, key, id, |At(d.lists, key)|);
      WithoutMore(list, removed, id);
    }
  }

  lemma ProgressEnd(mode: Mode, c: Context, primary: OutputKey, start: Domain, key: OutputKey, removed: seq<DesktopId>, d: Domain)
    requires Progress(mode, c, primary, start, key, |At(start.lists, key)|, removed, d)
    ensures WithTrailing(c, start, key) == if Trailing(c, Without(At(start.lists, key), removed)).Some? then d else Created(d, key)
    ensures Settled(mode, c, d, primary)
  {
    var list := At(start.lists, key);
    assert list[|list|..] == [];
  }

  /** The next pass stays within the cap. */
  ghost predicate Fits(mode: Mode, c: Context, d: Domain, primary: OutputKey) {
    RoomFor(c, Rebuild(mode, c, d, primary), Kept(mode, c))
  }

  /** After a pass that fits, the next one fits too and starts from settled lists. */
  lemma AfterPass(mode: Mode, c: Context, d: Domain, primary: OutputKey)
    requires Startable(mode, c, d) && Kept(mode, c) != [] && NoDup(c.keys)
    requires Fits(mode, c, d, primary)
    ensures var e := Pass(mode, c, d, primary);
            && e == Enforced(c, Rebuild(mode, c, d, primary), Kept(mode, c))
            && 0 < |e.live| <= MAX_DESKTOPS && Fits(mode, c, e, primary)
  {
    var keys := Kept(mode, c);
    var r, e := Rebuild(mode, c, d, primary), Pass(mode, c, d, primary);
    RebuildSettles(mode, c, d, primary);
    PassIsEnforced(mode, c, d, primary);
    EnforcedEnds(mode, c, r, primary, keys, keys[0]);
    forall key | key in keys
      ensures EndsEmpty(c, e, key)
    {
      EnforcedEnds(mode, c, r, primary, keys, key);
    }
    RoomThroughout(c, r, keys);
    RebuildIdle(mode, c, e, primary);
    RoomOnceEmpty(mode, c, e, primary, keys);
    var list := At(e.lists, keys[0]);
    var id := list[|list| - 1];
    assert EndsEmpty(c, e, keys[0]) && id in e.lists[keys[0]] && id in Listed(e.lists);
  }
}
