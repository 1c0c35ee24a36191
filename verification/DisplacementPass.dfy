// One displacement pass as a function of what it finds: the lists after the lost
// outputs, the lists after the returned ones, and where a return leaves its desktops.

module DisplacementPass {
  import opened Prelude
  import opened SessionKeys
  import opened WorkspaceLists
  import opened Lifecycle
  import opened Displacement

  /** What a pass finds: the lists, the view and the windows' desktops last noted per output, the records
      less what is no longer live, the live desktops and the connected outputs. */
  datatype Scene = Scene(mode: Mode, lists: Lists, visible: map<OutputKey, DesktopId>, known: map<OutputKey, seq<DesktopId>>,
                         records: Records, live: seq<DesktopId>, keys: seq<OutputKey>)

  /** A lost output and the survivor chosen when its turn came. */
  datatype Loss = Loss(origin: OutputKey, survivor: OutputKey)

  /** The outputs known from lists, views, windows or records that are not connected. */
  function LostKeys(lists: Lists, visible: map<OutputKey, DesktopId>, known: map<OutputKey, seq<DesktopId>>, records: Records,
                    keys: set<OutputKey>): set<OutputKey> {
    lists.Keys + visible.Keys + known.Keys + records.Keys - keys
  }

  function LostIn(s: Scene): set<OutputKey> {
    LostKeys(s.lists, s.visible, s.known, s.records, SetOf(s.keys))
  }

  /** The scene is one a pass can find. */
  ghost predicate Plausible(s: Scene) {
    && s.mode != Shared && Partition(s.lists) && NoDup(s.keys) && RecordsSound(s.records)
    && forall origin <- s.records :: forall id <- s.records[origin].ids :: id in s.live
  }

  // ---- lost outputs ----

  /** Append what is not there yet. */
  function Merged(base: seq<DesktopId>, more: seq<DesktopId>): seq<DesktopId> {
    if more == [] then base
    else
      var front := Merged(base, more[..|more| - 1]);
      if more[|more| - 1] in front then front else front + [more[|more| - 1]]
  }

  lemma {:induction false} MergedMembers(base: seq<DesktopId>, more: seq<DesktopId>)
    requires NoDup(base)
    ensures base <= Merged(base, more) && NoDup(Merged(base, more))
    ensures forall id :: id in Merged(base, more) <==> id in base || id in more
  {
    if more != [] {
      MergedMembers(base, more[..|more| - 1]);
      assert more == more[..|more| - 1] + [more[|more| - 1]];
    }
  }

  /** Everything known of an output in order: its list, then its windows' desktops, then its view. */
  function Belonging(origin: OutputKey, list: seq<DesktopId>, visible: map<OutputKey, DesktopId>,
                     known: map<OutputKey, seq<DesktopId>>, live: seq<DesktopId>): seq<DesktopId> {
    var listed := Merged([], list);
    var held := if origin in known then Merged(listed, known[origin]) else listed;
    Only(if origin in visible then Merged(held, [visible[origin]]) else held, live)
  }

  lemma BelongingMembers(origin: OutputKey, list: seq<DesktopId>, visible: map<OutputKey, DesktopId>,
                         known: map<OutputKey, seq<DesktopId>>, live: seq<DesktopId>)
    ensures NoDup(Belonging(origin, list, visible, known, live))
    ensures forall id :: id in Belonging(origin, list, visible, known, live) <==>
              id in live && Claims(list, visible, known, map[], origin, id)
  {
    var listed := Merged([], list);
    var held := if origin in known then Merged(listed, known[origin]) else listed;
    MergedMembers([], list);
    if origin in known { MergedMembers(listed, known[origin]); }
    if origin in visible { MergedMembers(held, [visible[origin]]); }
    OnlyMembers(if origin in visible then Merged(held, [visible[origin]]) else held, live);
  }

  /** They come in that order: first the list's live ones as listed, then others of its windows, its view last. */
  lemma BelongingOrder(origin: OutputKey, list: seq<DesktopId>, visible: map<OutputKey, DesktopId>,
                       known: map<OutputKey, seq<DesktopId>>, live: seq<DesktopId>)
    returns (more: seq<DesktopId>, last: seq<DesktopId>)
    requires NoDup(list)
    ensures Belonging(origin, list, visible, known, live) == Only(list, live) + more + last
    ensures forall id <- more :: origin in known && id in known[origin] && id !in list
    ensures |last| <= 1 && forall id <- last :: origin in visible && id == visible[origin] && id !in list && id !in more
  {
    hide Merged;
    MergedDistinct(list);
    var held := if origin in known then Merged(list, known[origin]) else list;
    if origin in known { MergedMembers(list, known[origin]); }
    var grown := held[|list|..];
    assert held == list + grown;
    var view := if origin in visible && visible[origin] !in held then [visible[origin]] else [];
    if origin in visible { MergedOne(held, visible[origin]); }
    assert held + [] == held;
    OnlyInThree(list, grown, view, live);
    more, last := Only(grown, live), Only(view, live);
    OnlyMembers(grown, live);
    OnlyMembers(view, live);
    FilterMembers(x => x in live, view);
    NotAgain(list, grown);
  }

  lemma OnlyInThree(a: seq<DesktopId>, b: seq<DesktopId>, c: seq<DesktopId>, live: seq<DesktopId>)
    ensures Only(a + b + c, live) == Only(a, live) + Only(b, live) + Only(c, live)
  {
    FilterConcat(x => x in live, a + b, c);
    FilterConcat(x => x in live, a, b);
  }

  lemma MergedOne(base: seq<DesktopId>, id: DesktopId)
    ensures Merged(base, [id]) == if id in base then base else base + [id]
  {
    assert [id][..0] == [];
  }

  lemma {:induction false} MergedDistinct(list: seq<DesktopId>)
    requires NoDup(list)
    ensures Merged([], list) == list
  {
    if list != [] {
      var front := list[..|list| - 1];
      MergedDistinct(front);
      assert list == front + [list[|list| - 1]];
    }
  }

  lemma NotAgain(list: seq<DesktopId>, more: seq<DesktopId>)
    requires NoDup(list + more)
    ensures forall id <- more :: id !in list
  {
    forall id | id in more
      ensures id !in list
    {
      var j :| 0 <= j < |more| && more[j] == id;
      assert (list + more)[|list| + j] == id;
      assert forall i | 0 <= i < |list| :: (list + more)[i] == list[i];
    }
  }

  /** The desktop is known to belong to the output: by its list, its windows, its view or its record. */
  ghost predicate Claims(ids: seq<DesktopId>, visible: map<OutputKey, DesktopId>, known: map<OutputKey, seq<DesktopId>>, records: Records,
                         origin: OutputKey, id: DesktopId) {
    || id in ids || (origin in known && id in known[origin]) || (origin in visible && id == visible[origin])
    || (origin in records && id in records[origin].ids)
  }

  /** Desktops not yet on the survivor's list move to its end. */
  function Ensured(mode: Mode, lists: Lists, ids: seq<DesktopId>, dest: OutputKey): Lists {
    if mode == GlobalUnique && ids == [] then lists else MovedTo(lists, Without(ids, At(lists, dest)), dest)
  }

  function DroppedIfEmpty(lists: Lists, origin: OutputKey): Lists {
    if origin in lists && lists[origin] == [] then lists - {origin} else lists
  }

  /** An output already displaced: its desktops stay with their survivor, else go to a new one, which in
      the global mode no list shows. */
  function KeptAway(mode: Mode, lists: Lists, record: Record, live: seq<DesktopId>, keys: seq<OutputKey>, loss: Loss): Lists {
    var ids := Only(record.ids, live);
    if record.dest in keys then Ensured(mode, lists, ids, record.dest)
    else if ids == [] then DroppedIfEmpty(lists, loss.origin)
    else if mode == GlobalUnique then lists
    else MovedTo(lists, ids, loss.survivor)
  }

  /** An output just lost: what belongs to it goes to the survivor, and its own list when it is empty. */
  function TakenOff(mode: Mode, lists: Lists, ids: seq<DesktopId>, loss: Loss): Lists {
    if ids == [] then DroppedIfEmpty(lists, loss.origin)
    else if mode == GlobalUnique then DroppedIfEmpty(Ensured(mode, lists, ids, loss.survivor), loss.origin)
    else MovedTo(lists, ids, loss.survivor) - {loss.origin}
  }

  function AfterLoss(s: Scene, lists: Lists, loss: Loss): Lists {
    if loss.origin in s.records then KeptAway(s.mode, lists, s.records[loss.origin], s.live, s.keys, loss)
    else TakenOff(s.mode, lists, Belonging(loss.origin, At(s.lists, loss.origin), s.visible, s.known, s.live), loss)
  }

  function AfterLosses(s: Scene, losses: seq<Loss>): Lists {
    if losses == [] then s.lists else AfterLoss(s, AfterLosses(s, losses[..|losses| - 1]), losses[|losses| - 1])
  }

  lemma AfterNextLoss(s: Scene, losses: seq<Loss>, loss: Loss)
    ensures AfterLosses(s, losses + [loss]) == AfterLoss(s, AfterLosses(s, losses), loss)
  {
    assert (losses + [loss])[..|losses|] == losses;
  }

  /** The losses are of those outputs, each once; every survivor is connected and is the chosen one when
      the choice is known. */
  ghost predicate LossesOf(losses: seq<Loss>, lost: set<OutputKey>, keys: seq<OutputKey>, choice: Option<OutputKey>) {
    && (forall i, j | 0 <= i < j < |losses| :: losses[i].origin != losses[j].origin)
    && (forall loss <- losses :: loss.origin in lost && Suits(loss.survivor, keys, choice))
    && forall origin <- lost :: exists loss <- losses :: loss.origin == origin
  }

  predicate Suits(survivor: OutputKey, keys: seq<OutputKey>, choice: Option<OutputKey>) {
    survivor in keys && (choice.Some? ==> survivor == choice.value)
  }

  lemma LossesOfNone(keys: seq<OutputKey>, choice: Option<OutputKey>)
    ensures LossesOf([], {}, keys, choice)
  {
  }

  lemma FirstLossIn(losses: seq<Loss>, lost: set<OutputKey>, keys: seq<OutputKey>, choice: Option<OutputKey>)
    requires LossesOf(losses, lost, keys, choice)
    ensures losses == [] || losses[0].origin in lost
  {
    assert losses != [] ==> losses[0] in losses;
  }

  lemma LossAmong(losses: seq<Loss>, lost: set<OutputKey>, keys: seq<OutputKey>, choice: Option<OutputKey>, loss: Loss)
    requires LossesOf(losses, lost, keys, choice) && loss in losses
    ensures loss.origin in lost
  {
  }

  lemma LossesOfMore(losses: seq<Loss>, lost: set<OutputKey>, keys: seq<OutputKey>, choice: Option<OutputKey>, loss: Loss)
    requires LossesOf(losses, lost, keys, choice) && loss.origin !in lost && Suits(loss.survivor, keys, choice)
    ensures LossesOf(losses + [loss], lost + {loss.origin}, keys, choice)
  {
    var more := losses + [loss];
    assert forall l <- losses :: l in more;
    assert loss in more;
  }

  /** No list of the second has a desktop that it lacks in the first and that is not among the given. */
  ghost predicate Gained(lists: Lists, now: Lists, ids: seq<DesktopId>) {
    Partition(now) && forall key :: forall id <- At(now, key) :: id in At(lists, key) || id in ids
  }

  lemma DropGains(lists: Lists, now: Lists, ids: seq<DesktopId>, origin: OutputKey)
    requires Gained(lists, now, ids)
    ensures Gained(lists, now - {origin}, ids) && Gained(lists, DroppedIfEmpty(now, origin), ids)
  {
  }

  /** One loss keeps the lists a partition; what a list gains the lost output claims. */
  lemma AfterLossKeeps(s: Scene, lists: Lists, loss: Loss)
    requires Plausible(s) && Partition(lists)
    ensures Partition(AfterLoss(s, lists, loss))
    ensures forall key :: forall id <- At(AfterLoss(s, lists, loss), key) ::
              id in At(lists, key) || Claims(At(s.lists, loss.origin), s.visible, s.known, s.records, loss.origin, id)
  {
    hide MovedTo, Ensured, Belonging, Only, DroppedIfEmpty, Partition;
    var ids;
    if loss.origin in s.records {
      var record := s.records[loss.origin];
      ids := record.ids;
      OnlyMembers(record.ids, s.live);
      EnsuredKeeps(s.mode, lists, ids, record.dest);
    } else {
      ids := Belonging(loss.origin, At(s.lists, loss.origin), s.visible, s.known, s.live);
      BelongingMembers(loss.origin, At(s.lists, loss.origin), s.visible, s.known, s.live);
    }
    EnsuredKeeps(s.mode, lists, ids, loss.survivor);
    MoveGains(lists, ids, loss.survivor);
    DropGains(lists, lists, ids, loss.origin);
    DropGains(lists, Ensured(s.mode, lists, ids, loss.survivor), ids, loss.origin);
    DropGains(lists, MovedTo(lists, ids, loss.survivor), ids, loss.origin);
    assert Gained(lists, AfterLoss(s, lists, loss), ids);
  }

  lemma MoveGains(lists: Lists, ids: seq<DesktopId>, dest: OutputKey)
    requires Partition(lists) && NoDup(ids)
    ensures Gained(lists, MovedTo(lists, ids, dest), ids)
  {
    MovedToKeeps(lists, ids, dest);
    forall key, id | id in At(MovedTo(lists, ids, dest), key)
      ensures id in At(lists, key) || id in ids
    {
      WithoutMembers(At(lists, key), ids);
    }
  }

  lemma EnsuredKeeps(mode: Mode, lists: Lists, ids: seq<DesktopId>, dest: OutputKey)
    requires Partition(lists) && NoDup(ids)
    ensures Gained(lists, Ensured(mode, lists, ids, dest), ids)
  {
    WithoutMembers(ids, At(lists, dest));
    MoveGains(lists, Without(ids, At(lists, dest)), dest);
  }

  /** No lost output claims the desktop. */
  ghost predicate Unclaimed(s: Scene, losses: seq<Loss>, id: DesktopId) {
    forall loss <- losses :: !Claims(At(s.lists, loss.origin), s.visible, s.known, s.records, loss.origin, id)
  }

  /** The lists stay a partition, and no list gains what no lost output claims. */
  lemma {:induction false} AfterLossesKeep(s: Scene, losses: seq<Loss>)
    requires Plausible(s)
    ensures Partition(AfterLosses(s, losses))
    ensures forall key :: forall id <- At(AfterLosses(s, losses), key) | Unclaimed(s, losses, id) :: id in At(s.lists, key)
  {
    if losses != [] {
      var front := losses[..|losses| - 1];
      AfterLossesKeep(s, front);
      AfterLossKeeps(s, AfterLosses(s, front), losses[|losses| - 1]);
      assert losses[|losses| - 1] in losses && forall loss <- front :: loss in losses;
    }
  }

  // ---- returned outputs ----

  /** Which of the returning desktops move: all of them locally, the ones not yet there globally. */
  function Arriving(mode: Mode, lists: Lists, key: OutputKey, ids: seq<DesktopId>): seq<DesktopId> {
    if mode == GlobalUnique then Without(ids, At(lists, key)) else ids
  }

  function AfterReturn(s: Scene, lists: Lists, key: OutputKey): Lists {
    if key in s.records then MovedTo(lists, Arriving(s.mode, lists, key, s.records[key].ids), key) else lists
  }

  /** The first i connected outputs have had their turn. */
  function AfterReturns(s: Scene, lists: Lists, i: nat): Lists
    requires i <= |s.keys|
  {
    if i == 0 then lists else AfterReturn(s, AfterReturns(s, lists, i - 1), s.keys[i - 1])
  }

  /** The lists after a pass. */
  function Reconciled(s: Scene, losses: seq<Loss>): Lists {
    AfterReturns(s, AfterLosses(s, losses), |s.keys|)
  }

  lemma ArrivingMembers(mode: Mode, lists: Lists, key: OutputKey, ids: seq<DesktopId>)
    requires NoDup(ids)
    ensures NoDup(Arriving(mode, lists, key, ids)) && forall id <- Arriving(mode, lists, key, ids) :: id in ids
    ensures forall id <- ids :: id in At(lists, key) || id in Arriving(mode, lists, key, ids)
  {
    WithoutMembers(ids, At(lists, key));
  }

  /** The desktops that arrive, and those that were there, are on that list alone. */
  lemma ArrivedOnly(mode: Mode, lists: Lists, key: OutputKey, ids: seq<DesktopId>, id: DesktopId)
    requires Partition(lists) && NoDup(ids) && id in ids
    ensures OnlyOn(MovedTo(lists, Arriving(mode, lists, key, ids), key), id, key)
  {
    var moved := Arriving(mode, lists, key, ids);
    ArrivingMembers(mode, lists, key, ids);
    MovedToKeeps(lists, moved, key);
    if id !in moved {
      WithoutMembers(lists[key], moved);
      assert id in MovedTo(lists, moved, key)[key];
    }
  }

  lemma {:induction false} AfterReturnsKeep(s: Scene, lists: Lists, i: nat)
    requires i <= |s.keys| && Plausible(s) && Partition(lists)
    ensures Partition(AfterReturns(s, lists, i))
  {
    if i > 0 {
      AfterReturnsKeep(s, lists, i - 1);
      var key, prior := s.keys[i - 1], AfterReturns(s, lists, i - 1);
      if key in s.records {
        ArrivingMembers(s.mode, prior, key, s.records[key].ids);
        MovedToKeeps(prior, Arriving(s.mode, prior, key, s.records[key].ids), key);
      }
    }
  }

  function Outside(list: seq<DesktopId>, ids: set<DesktopId>): seq<DesktopId> {
    Filter(x => x !in ids, list)
  }

  /** What the records of the first i connected outputs other than that one name. */
  function Others(s: Scene, key: OutputKey, i: nat): set<DesktopId>
    requires i <= |s.keys|
  {
    set j, id | 0 <= j < i && s.keys[j] != key && s.keys[j] in s.records && id in s.records[s.keys[j]].ids :: id
  }

  /** No other connected output's record names any of the desktops. */
  ghost predicate Alone(records: Records, keys: seq<OutputKey>, key: OutputKey)
    requires key in records
  {
    forall other | other in keys && other in records && other != key :: forall id <- records[key].ids :: id !in records[other].ids
  }

  /** What has come to the output of its own record once the first i outputs have had their turn. */
  function Come(s: Scene, lists: Lists, key: OutputKey, i: nat): seq<DesktopId>
    requires i <= |s.keys|
  {
    if key in s.keys[..i] && key in s.records then Arriving(s.mode, lists, key, s.records[key].ids) else []
  }

  /** A returned output's list: what it had, less what the records of other returned outputs and its own
      arrivals name, then its own arrivals in recorded order. */
  function ReturnedList(s: Scene, lists: Lists, key: OutputKey, i: nat): seq<DesktopId>
    requires i <= |s.keys|
  {
    Outside(At(lists, key), Others(s, key, i) + SetOf(Come(s, lists, key, i))) + Come(s, lists, key, i)
  }

  lemma {:induction false} ReturnsAt(s: Scene, lists: Lists, key: OutputKey, i: nat)
    requires i <= |s.keys| && Plausible(s) && Partition(lists) && key in s.records && Alone(s.records, s.keys, key)
    ensures At(AfterReturns(s, lists, i), key) == ReturnedList(s, lists, key, i)
  {
    hide ReturnedList, Alone, Plausible, Partition, AfterReturn;
    if i == 0 {
      ReturnedNone(s, lists, key);
    } else {
      ReturnsAt(s, lists, key, i - 1);
      AfterReturnsKeep(s, lists, i - 1);
      assert s.keys[..i] == s.keys[..i - 1] + [s.keys[i - 1]];
      if s.keys[i - 1] == key {
        OwnTurn(s, lists, key, i);
      } else {
        OthersTurn(s, lists, key, i);
      }
    }
  }

  lemma ReturnedNone(s: Scene, lists: Lists, key: OutputKey)
    ensures ReturnedList(s, lists, key, 0) == At(lists, key)
  {
    FilterAll(x => x !in Others(s, key, 0) + SetOf(Come(s, lists, key, 0)), At(lists, key));
  }

  lemma OthersNext(s: Scene, key: OutputKey, i: nat)
    requires 0 < i <= |s.keys|
    ensures Others(s, key, i) == Others(s, key, i - 1) +
              if s.keys[i - 1] != key && s.keys[i - 1] in s.records then SetOf(s.records[s.keys[i - 1]].ids) else {}
  {
  }

  /** What other records name is not named by an unshared one. */
  lemma OthersApart(s: Scene, key: OutputKey, i: nat)
    requires i <= |s.keys| && key in s.records && Alone(s.records, s.keys, key)
    ensures forall id <- s.records[key].ids :: id !in Others(s, key, i)
  {
  }

  lemma OutsideMore(list: seq<DesktopId>, ids: set<DesktopId>, more: seq<DesktopId>)
    ensures Without(Outside(list, ids), more) == Outside(list, ids + SetOf(more))
  {
    FilterTwice(x => x !in ids, x => x !in more, x => x !in ids + SetOf(more), list);
  }

  lemma MissingOutside(ids: seq<DesktopId>, list: seq<DesktopId>, others: set<DesktopId>)
    requires forall id <- ids :: id !in others
    ensures Without(ids, Outside(list, others)) == Without(ids, list)
  {
    var there := Outside(list, others);
    FilterMembers(x => x !in others, list);
    SameFilter(x => x !in there, x => x !in list, ids);
  }

  lemma NotBefore(keys: seq<OutputKey>, i: nat)
    requires i < |keys| && NoDup(keys)
    ensures keys[i] !in keys[..i]
  {
  }

  /** The output's own desktops go to the end of what is left of its list. */
  lemma OwnTurn(s: Scene, lists: Lists, key: OutputKey, i: nat)
    requires 0 < i <= |s.keys| && Plausible(s) && key in s.records && Alone(s.records, s.keys, key) && s.keys[i - 1] == key
    requires s.keys[..i] == s.keys[..i - 1] + [key]
    requires At(AfterReturns(s, lists, i - 1), key) == ReturnedList(s, lists, key, i - 1)
    ensures At(AfterReturns(s, lists, i), key) == ReturnedList(s, lists, key, i)
  {
    hide Outside, Others, Alone, Without;
    var ids, was, others := s.records[key].ids, At(lists, key), Others(s, key, i - 1);
    NotBefore(s.keys, i - 1);
    OthersNext(s, key, i);
    OthersApart(s, key, i);
    assert SetOf<DesktopId>([]) == {} && others + {} == others;
    assert At(AfterReturns(s, lists, i - 1), key) == Outside(was, others);
    MissingOutside(ids, was, others);
    OutsideMore(was, others, Come(s, lists, key, i));
  }

  /** Other outputs' desktops leave the list, and the output's own stay at its end. */
  lemma OthersTurn(s: Scene, lists: Lists, key: OutputKey, i: nat)
    requires 0 < i <= |s.keys| && Plausible(s) && key in s.records && Alone(s.records, s.keys, key) && s.keys[i - 1] != key
    requires s.keys[..i] == s.keys[..i - 1] + [s.keys[i - 1]] && Partition(AfterReturns(s, lists, i - 1))
    requires At(AfterReturns(s, lists, i - 1), key) == ReturnedList(s, lists, key, i - 1)
    ensures At(AfterReturns(s, lists, i), key) == ReturnedList(s, lists, key, i)
  {
    hide Outside, Others, Without, Arriving;
    var other, prior, come := s.keys[i - 1], AfterReturns(s, lists, i - 1), Come(s, lists, key, i);
    OthersNext(s, key, i);
    if other in s.records {
      var ids, before := s.records[other].ids, Others(s, key, i - 1);
      LeavesOther(s.mode, prior, key, other, ids);
      WithoutConcat(Outside(At(lists, key), before + SetOf(come)), come, ids);
      OutsideMore(At(lists, key), before + SetOf(come), ids);
      assert before + SetOf(come) + SetOf(ids) == before + SetOf(ids) + SetOf(come);
      ArrivingMembers(s.mode, lists, key, s.records[key].ids);
      WithoutNone(come, ids);
    } else {
      assert Others(s, key, i) == Others(s, key, i - 1);
    }
  }

  lemma WithoutConcat(a: seq<DesktopId>, b: seq<DesktopId>, ids: seq<DesktopId>)
    ensures Without(a + b, ids) == Without(a, ids) + Without(b, ids)
  {
    FilterConcat(x => x !in ids, a, b);
  }

  /** What arrives at one output leaves another's list; what was there already was on no other. */
  lemma LeavesOther(mode: Mode, lists: Lists, key: OutputKey, other: OutputKey, ids: seq<DesktopId>)
    requires Partition(lists) && key != other && NoDup(ids)
    ensures At(MovedTo(lists, Arriving(mode, lists, other, ids), other), key) == Without(At(lists, key), ids)
  {
    var moved := Arriving(mode, lists, other, ids);
    var was := At(lists, key);
    ArrivingMembers(mode, lists, other, ids);
    SameFilter(x => x !in moved, x => x !in ids, was);
    assert Without(was, moved) == Without(was, ids);
    WithoutNone([], ids);
  }

  // ---- recorded order ----

  /** The list ends in the first k of the desktops, for some k, and holds none of the others: what is
      missing can be appended to make it end in all of them. */
  ghost predicate EndsIn(list: seq<DesktopId>, ids: seq<DesktopId>) {
    exists k: nat :: k <= |ids| && k <= |list| && list[|list| - k..] == ids[..k] && forall id <- ids[k..] :: id !in list
  }

  ghost predicate EndsWith(list: seq<DesktopId>, ids: seq<DesktopId>) {
    |ids| <= |list| && list[|list| - |ids|..] == ids
  }

  lemma TailSplits(list: seq<DesktopId>, missing: seq<DesktopId>, ids: seq<DesktopId>)
    requires |missing| <= |ids| && EndsWith(list + missing, ids)
    ensures var k := |ids| - |missing|; k <= |list| && list[|list| - k..] == ids[..k] && missing == ids[k..]
  {
    var k := |ids| - |missing|;
    assert ids == list[|list| - k..] + missing;
  }

  lemma TailJoins(list: seq<DesktopId>, ids: seq<DesktopId>, k: nat)
    requires k <= |ids| && k <= |list| && list[|list| - k..] == ids[..k]
    ensures EndsWith(list + ids[k..], ids)
  {
    var all := list + ids[k..];
    assert all[|all| - |ids|..] == list[|list| - k..] + ids[k..];
  }

  lemma MissingIsRest(list: seq<DesktopId>, ids: seq<DesktopId>, k: nat)
    requires k <= |ids| && (forall id <- ids[..k] :: id in list) && forall id <- ids[k..] :: id !in list
    ensures Without(ids, list) == ids[k..]
  {
    FilterConcat(x => x !in list, ids[..k], ids[k..]);
    FilterAll(x => x !in list, ids[k..]);
    NothingMissing(ids[..k], list);
    assert ids == ids[..k] + ids[k..];
  }

  /** Appending what is missing makes the list end in the desktops exactly when it ended in the first of them. */
  lemma MissingAppended(list: seq<DesktopId>, ids: seq<DesktopId>)
    requires NoDup(ids)
    ensures EndsWith(list + Without(ids, list), ids) <==> EndsIn(list, ids)
  {
    hide EndsWith, Without;
    var missing := Without(ids, list);
    if EndsWith(list + missing, ids) {
      WithoutMembers(ids, list);
      WithoutShorter(ids, list);
      TailSplits(list, missing, ids);
      assert ids[..|ids| - |missing|] == list[|list| - (|ids| - |missing|)..];
    }
    if EndsIn(list, ids) {
      var k: nat :| k <= |ids| && k <= |list| && list[|list| - k..] == ids[..k] && forall id <- ids[k..] :: id !in list;
      forall id | id in ids[..k]
        ensures id in list
      {
        assert id in list[|list| - k..];
      }
      MissingIsRest(list, ids, k);
      TailJoins(list, ids, k);
    }
  }

  lemma WithoutShorter(ids: seq<DesktopId>, there: seq<DesktopId>)
    ensures |Without(ids, there)| <= |ids|
  {
    FilterMembers(x => x !in there, ids);
  }

  lemma NothingMissing(ids: seq<DesktopId>, there: seq<DesktopId>)
    requires forall id <- ids :: id in there
    ensures Without(ids, there) == []
  {
    var missing := Without(ids, there);
    assert missing != [] ==> missing[0] in missing;
    WithoutMembers(ids, there);
  }

  /** One return in the global mode restores the recorded order exactly when the list ended in the first
      of the recorded desktops. */
  lemma ReturnHomeIff(lists: Lists, key: OutputKey, ids: seq<DesktopId>)
    requires Partition(lists) && NoDup(ids)
    ensures Home(MovedTo(lists, Arriving(GlobalUnique, lists, key, ids), key), key, ids) <==> EndsIn(At(lists, key), ids)
  {
    var moved := Arriving(GlobalUnique, lists, key, ids);
    WithoutMembers(ids, At(lists, key));
    WithoutNone(At(lists, key), moved);
    MissingAppended(At(lists, key), ids);
    forall id | id in ids
      ensures OnlyOn(MovedTo(lists, moved, key), id, key)
    {
      ArrivedOnly(GlobalUnique, lists, key, ids, id);
    }
  }

  /** The list of a returned output as its recorded desktops find it. */
  ghost function FoundAt(s: Scene, losses: seq<Loss>, key: OutputKey): seq<DesktopId> {
    Outside(At(AfterLosses(s, losses), key), Others(s, key, |s.keys|))
  }

  /** A later connected output's record names the desktop too. */
  ghost predicate NamedLater(s: Scene, j: nat, i: nat, id: DesktopId)
    requires i <= |s.keys|
  {
    exists k :: j < k < i && s.keys[k] in s.records && id in s.records[s.keys[k]].ids
  }

  /** A desktop is alone on the list of the last returned output that names it. */
  lemma {:induction false} LastReturnHolds(s: Scene, lists: Lists, i: nat, j: nat, id: DesktopId)
    requires Plausible(s) && Partition(lists) && j < i <= |s.keys| && s.keys[j] in s.records
    requires id in s.records[s.keys[j]].ids && !NamedLater(s, j, i, id)
    ensures OnlyOn(AfterReturns(s, lists, i), id, s.keys[j])
  {
    hide Partition, OnlyOn, MovedTo;
    AfterReturnsKeep(s, lists, i - 1);
    var prior, key := AfterReturns(s, lists, i - 1), s.keys[i - 1];
    if i == j + 1 {
      ArrivedOnly(s.mode, prior, key, s.records[key].ids, id);
    } else {
      LastReturnHolds(s, lists, i - 1, j, id);
      if key in s.records {
        ArrivingMembers(s.mode, prior, key, s.records[key].ids);
        StaysOnlyOn(prior, s.keys[j], id, Arriving(s.mode, prior, key, s.records[key].ids), key);
      }
    }
  }

  /** Every recorded desktop of a connected output is back, alone on the list of the last that names it. The
      desktops of a record that shares none end its output's list in recorded order in the local mode, and in
      the global mode exactly when the list they found ended in the first of them. */
  ghost predicate AllBack(s: Scene, losses: seq<Loss>, now: Lists) {
    && (forall j: nat | j < |s.keys| && s.keys[j] in s.records ::
          forall id <- s.records[s.keys[j]].ids | !NamedLater(s, j, |s.keys|, id) :: OnlyOn(now, id, s.keys[j]))
    && (forall key <- s.keys | key in s.records && Alone(s.records, s.keys, key) ::
          && (forall id <- s.records[key].ids :: OnlyOn(now, id, key))
          && (Home(now, key, s.records[key].ids) <==> s.mode == PerOutputLocal || EndsIn(FoundAt(s, losses, key), s.records[key].ids)))
  }

  /** Where a returned output's list ends up. */
  lemma ReturnedTo(s: Scene, losses: seq<Loss>, key: OutputKey)
    requires Plausible(s) && key in s.keys && key in s.records && Alone(s.records, s.keys, key)
    ensures var ids, found := s.records[key].ids, FoundAt(s, losses, key);
            At(Reconciled(s, losses), key) == if s.mode == GlobalUnique then found + Without(ids, found) else Without(found, ids) + ids
    ensures Partition(Reconciled(s, losses))
  {
    hide Outside, Others, Without;
    var mid, ids := AfterLosses(s, losses), s.records[key].ids;
    var others := Others(s, key, |s.keys|);
    AfterLossesKeep(s, losses);
    AfterReturnsKeep(s, mid, |s.keys|);
    ReturnsAt(s, mid, key, |s.keys|);
    OthersApart(s, key, |s.keys|);
    assert s.keys[..|s.keys|] == s.keys;
    var come := Come(s, mid, key, |s.keys|);
    MissingOutside(ids, At(mid, key), others);
    OutsideMore(At(mid, key), others, come);
    if s.mode == GlobalUnique {
      WithoutMembers(ids, FoundAt(s, losses, key));
      WithoutNone(FoundAt(s, losses, key), come);
    }
  }

  lemma HomeMeans(lists: Lists, key: OutputKey, ids: seq<DesktopId>)
    requires Partition(lists) && ids != [] && forall id <- ids :: id in At(lists, key)
    ensures forall id <- ids :: OnlyOn(lists, id, key)
    ensures Home(lists, key, ids) <==> EndsWith(At(lists, key), ids)
  {
    assert ids[0] in At(lists, key);
  }

  lemma BackAt(s: Scene, losses: seq<Loss>, key: OutputKey)
    requires Plausible(s) && key in s.keys && key in s.records && Alone(s.records, s.keys, key)
    ensures var now, ids := Reconciled(s, losses), s.records[key].ids;
            && (forall id <- ids :: OnlyOn(now, id, key))
            && (Home(now, key, ids) <==> s.mode == PerOutputLocal || EndsIn(FoundAt(s, losses, key), ids))
  {
    hide Reconciled, FoundAt, EndsIn, Home, Partition, OnlyOn, Without, Alone;
    var ids, found := s.records[key].ids, FoundAt(s, losses, key);
    ReturnedTo(s, losses, key);
    WithoutMembers(ids, found);
    MissingAppended(found, ids);
    HomeMeans(Reconciled(s, losses), key, ids);
  }

  /** A pass over any scene keeps the partition and brings every unshared record home. */
  lemma ReconciledBack(s: Scene, losses: seq<Loss>)
    requires Plausible(s)
    ensures Partition(Reconciled(s, losses)) && AllBack(s, losses, Reconciled(s, losses))
  {
    AfterLossesKeep(s, losses);
    AfterReturnsKeep(s, AfterLosses(s, losses), |s.keys|);
    forall key | key in s.keys && key in s.records && Alone(s.records, s.keys, key)
      ensures var now, ids := Reconciled(s, losses), s.records[key].ids;
              && (forall id <- ids :: OnlyOn(now, id, key))
              && (Home(now, key, ids) <==> s.mode == PerOutputLocal || EndsIn(FoundAt(s, losses, key), ids))
    {
      BackAt(s, losses, key);
    }
    forall j: nat, id | j < |s.keys| && s.keys[j] in s.records && id in s.records[s.keys[j]].ids && !NamedLater(s, j, |s.keys|, id)
      ensures OnlyOn(Reconciled(s, losses), id, s.keys[j])
    {
      LastReturnHolds(s, AfterLosses(s, losses), |s.keys|, j, id);
    }
  }

  /** Recorded order is restored when none of the desktops was on the list nor claimed by a lost output. */
  lemma FreshReturnHome(s: Scene, losses: seq<Loss>, key: OutputKey)
    requires Plausible(s) && key in s.keys && key in s.records && Alone(s.records, s.keys, key)
    requires forall id <- s.records[key].ids :: id !in At(s.lists, key) && Unclaimed(s, losses, id)
    ensures Home(Reconciled(s, losses), key, s.records[key].ids)
  {
    var ids, found := s.records[key].ids, FoundAt(s, losses, key);
    AfterLossesKeep(s, losses);
    FilterMembers(x => x !in Others(s, key, |s.keys|), At(AfterLosses(s, losses), key));
    assert forall id <- ids :: id !in found;
    assert found[|found| - 0..] == ids[..0] && ids[0..] == ids;
    BackAt(s, losses, key);
  }

  /** Recorded order is lost when the second of two recorded desktops is on the returning list already. */
  lemma SecondKeepsPlace(s: Scene, losses: seq<Loss>, choice: Option<OutputKey>, a: OutputKey, b: OutputKey)
    requires a != b && s.mode == GlobalUnique && At(s.lists, a) == [2] && s.lists.Keys == {a, b} && s.keys == [a, b]
    requires s.records == map[a := Record([1, 2], b)] && s.visible.Keys + s.known.Keys <= {a, b}
    requires Plausible(s) && LossesOf(losses, LostIn(s), s.keys, choice)
    ensures At(Reconciled(s, losses), a) == [2, 1]
  {
    hide Plausible, LossesOf, Others, Reconciled, FoundAt;
    FirstLossIn(losses, LostIn(s), s.keys, choice);
    NoOthers(s, a);
    FoundUntouched(s, losses, a);
    ReturnedTo(s, losses, a);
    assert Without([1, 2], [2]) == [1] by {
      assert [1, 2][1..] == [2] && [2][1..] == [];
    }
  }

  lemma NoOthers(s: Scene, key: OutputKey)
    requires forall other <- s.records :: other == key
    ensures Others(s, key, |s.keys|) == {}
  {
  }

  lemma FoundUntouched(s: Scene, losses: seq<Loss>, key: OutputKey)
    requires losses == [] && Others(s, key, |s.keys|) == {}
    ensures FoundAt(s, losses, key) == At(s.lists, key)
  {
    FilterAll(x => x !in Others(s, key, |s.keys|), At(s.lists, key));
  }

  lemma NotInOrder(list: seq<DesktopId>, live: seq<DesktopId>)
    requires NoDup(list) && 1 in live && 2 in live && [2, 1] <= Only(list, live)
    ensures !EndsWith(list, [1, 2])
  {
    if EndsWith(list, [1, 2]) {
      var front := list[..|list| - 2];
      assert list == front + [1, 2];
      OnlyConcat(front, [1, 2], live);
      OnlyMembers([1, 2], live);
      assert 2 !in front by { assert list[|list| - 1] == 2; }
      OnlyInOrder(front, live);
    }
  }

  lemma OnlyInOrder(front: seq<DesktopId>, live: seq<DesktopId>)
    requires 2 !in front
    ensures !([2, 1] <= Only(front, live) + [1, 2])
  {
    var kept := Only(front, live);
    OnlyMembers(front, live);
    assert kept != [] ==> kept[0] in kept;
    assert (kept + [1, 2])[0] == if kept == [] then 1 else kept[0];
  }

  lemma OnlyConcat(a: seq<DesktopId>, b: seq<DesktopId>, live: seq<DesktopId>)
    ensures Only(a + b, live) == Only(a, live) + Only(b, live)
  {
    FilterConcat(x => x in live, a, b);
  }

  // ---- a pass with nothing to do ----

  /** Every output known but not connected is displaced to a connected survivor that lists its desktops,
      and no connected output has a record. */
  ghost predicate AtRest(s: Scene) {
    && (forall origin <- LostIn(s) :: Waiting(s, origin))
    && forall key <- s.keys :: key !in s.records
  }

  ghost predicate Waiting(s: Scene, origin: OutputKey) {
    && origin in s.records && s.records[origin].dest in s.keys
    && forall id <- s.records[origin].ids :: id in At(s.lists, s.records[origin].dest)
  }

  /** Such a pass changes no list. */
  lemma RestStays(s: Scene, losses: seq<Loss>, choice: Option<OutputKey>)
    requires Plausible(s) && AtRest(s) && LossesOf(losses, LostIn(s), s.keys, choice)
    ensures AfterLosses(s, losses) == s.lists && Reconciled(s, losses) == s.lists
  {
    WaitingStays(s, losses);
    NoReturns(s, s.lists, |s.keys|);
  }

  lemma {:induction false} WaitingStays(s: Scene, losses: seq<Loss>)
    requires Plausible(s) && forall loss <- losses :: Waiting(s, loss.origin)
    ensures AfterLosses(s, losses) == s.lists
  {
    if losses != [] {
      var last := losses[|losses| - 1];
      WaitingStays(s, losses[..|losses| - 1]);
      assert last in losses;
      var record := s.records[last.origin];
      OnlyMembers(record.ids, s.live);
      assert record.ids[0] in record.ids;
      NothingMissing(record.ids, At(s.lists, record.dest));
      MovedNone(s.lists, record.dest);
    }
  }

  lemma {:induction false} NoReturns(s: Scene, lists: Lists, i: nat)
    requires i <= |s.keys| && forall key <- s.keys :: key !in s.records
    ensures AfterReturns(s, lists, i) == lists
  {
    if i > 0 { NoReturns(s, lists, i - 1); }
  }

  /** Everything recorded stays live and listed where it is, and nothing else becomes known: still at rest. */
  lemma StaysAtRest(s: Scene, now: Scene)
    requires Plausible(s) && AtRest(s) && now.keys == s.keys && now.records == PrunedRecords(s.records, now.live)
    requires forall id <- DisplacedIds(s.records) :: id in now.live
    requires forall key :: forall id <- At(s.lists, key) | id in now.live :: id in At(now.lists, key)
    requires forall key <- now.lists :: key in s.lists || key in s.keys
    requires forall key <- now.visible.Keys + now.known.Keys :: key in s.keys || key in s.records
    ensures AtRest(now) && now.records == s.records
  {
    forall origin | origin in s.records
      ensures Only(s.records[origin].ids, now.live) == s.records[origin].ids && s.records[origin].ids != []
    {
      assert forall id <- s.records[origin].ids :: id in DisplacedIds(s.records);
      OnlyMembers(s.records[origin].ids, now.live);
    }
    assert now.records == s.records;
    forall origin | origin in LostIn(now)
      ensures Waiting(now, origin)
    {
      assert origin in LostIn(s);
      assert Waiting(s, origin);
      assert forall id <- s.records[origin].ids :: id in DisplacedIds(s.records);
    }
  }
}
