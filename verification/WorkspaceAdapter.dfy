// The workspace adapter: which output each backing desktop belongs to, kept up
// to date across topology changes, selections, migrations and cleanup.

module WorkspaceAdapter {
  import opened Prelude
  import opened SessionKeys
  import opened WorkspaceLists
  import opened Lifecycle
  import opened GlobalMapping
  import opened NativeWorkspace
  import opened Displacement
  import opened DisplacementPass
  import opened Migration
  import ViewHistory
  import Ring
  import opened WorkspaceFacts

  class WorkspaceNativeAdapter {
    const mode: Mode
    const native: Native
    const outputKeys: SessionOutputKeys
    var enabled: bool
    var localWorkspaces: Lists
    var localPrimary: Option<OutputKey>
    var globalAssigned: Lists
    var globalInverse: map<DesktopId, OutputKey>
    var globalPrimary: Option<OutputKey>
    var sharedIds: seq<DesktopId>
    var managed: set<DesktopId>
    /** What the send adapter currently wants kept. */
    var retained: set<DesktopId>
    var displacedByOrigin: Records
    var lastVisibleByKey: map<OutputKey, DesktopId>
    var lastKnownByKey: map<OutputKey, seq<DesktopId>>
    var previousByOutput: map<OutputKey, DesktopId>
    var historyBaselineByKey: map<OutputKey, DesktopId>
    var lastSharedVisible: Option<DesktopId>
    var previousShared: Option<DesktopId>
    var refillRule: RefillRule

    ghost function Global(): Mapping
      reads `globalAssigned, `globalInverse
    {
      Mapping(globalAssigned, globalInverse)
    }

    /** Kept as one fact, unfolded only by the lemmas about MapsHold. */
    ghost predicate Maps()
      reads `localWorkspaces, `globalAssigned, `globalInverse, native`desktops, native`next
    {
      MapsHold(localWorkspaces, Global(), native.desktops, native.next)
    }

    ghost predicate Records()
      reads `displacedByOrigin
    {
      RecordsSound(displacedByOrigin)
    }

    ghost function History(): ViewHistory.History
      reads `previousByOutput, `historyBaselineByKey
    {
      ViewHistory.History(previousByOutput, historyBaselineByKey)
    }

    /** A remembered view is of an observed output and differs from its recorded current view. */
    ghost predicate Remembers()
      reads `previousByOutput, `historyBaselineByKey
    {
      ViewHistory.Sound(History())
    }

    ghost predicate RemovalsGuarded()
      reads native`removals
    {
      AllGuarded(native.removals)
    }

    /** No recorded removal is forgotten. */
    twostate predicate Logged()
      reads native`removals
    {
      old(native.removals) <= native.removals
    }

    ghost function Keys(outputs: seq<Output>): seq<OutputKey>
      reads outputKeys`slots, outputKeys`byOutput
    {
      KeysOf(outputKeys.slots, outputKeys.byOutput, outputs)
    }

    constructor (mode: Mode, native: Native, outputKeys: SessionOutputKeys)
      requires native.Valid() && native.removals == []
      ensures this.mode == mode && this.native == native && this.outputKeys == outputKeys
      ensures Maps() && Records() && Remembers() && RemovalsGuarded()
    {
      this.mode, this.native, this.outputKeys := mode, native, outputKeys;
      enabled := false;
      localWorkspaces, localPrimary := map[], None;
      globalAssigned, globalInverse, globalPrimary := map[], map[], None;
      sharedIds, managed, retained := [], {}, {};
      displacedByOrigin := map[];
      lastVisibleByKey, lastKnownByKey := map[], map[];
      previousByOutput, historyBaselineByKey := map[], map[];
      lastSharedVisible, previousShared, refillRule := None, None, LastRemaining;
    }

    // ---- mapping rebuilds ----

    method KeysFor(outputs: seq<Output>) returns (keys: seq<OutputKey>)
      ensures keys == Keys(outputs) && NoDup(keys)
    {
      keys := [];
      for i := 0 to |outputs|
        invariant keys == Keys(outputs[..i])
      {
        assert outputs[..i + 1][..i] == outputs[..i];
        var key := outputKeys.KeyFor(outputs[i]);
        if key.Some? && key.value !in keys {
          keys := keys + [key.value];
        }
      }
      assert outputs[..|outputs|] == outputs;
      KeysOfNoDup(outputKeys.slots, outputKeys.byOutput, outputs);
    }

    /** Append to the primary's list what no list names. */
    method AdoptUnlisted(kept: Lists, primary: OutputKey, live: seq<DesktopId>) returns (list: seq<DesktopId>, adopted: set<DesktopId>)
      requires NoDup(live)
      ensures list == At(kept, primary) + Unlisted(kept, live) && adopted == SetOf(Unlisted(kept, live))
    {
      list, adopted := At(kept, primary), {};
      ghost var more := [];
      for i := 0 to |live|
        invariant more == Unlisted(kept, live[..i]) && list == At(kept, primary) + more && adopted == SetOf(more)
      {
        FilterConcat(x => x !in Listed(kept), live[..i], [live[i]]);
        assert live[..i + 1] == live[..i] + [live[i]];
        if live[i] !in Listed(kept) {
          list, adopted := list + [live[i]], adopted + {live[i]};
          more := more + [live[i]];
        }
        assert [live[i]][1..] == [];
      }
      assert live[..|live|] == live;
    }

    method RebuildLocalMapping(provided: Option<seq<DesktopId>>) returns (ghost done: bool)
      requires Maps() && (provided.Some? ==> provided.value == native.desktops)
      modifies `localWorkspaces, `localPrimary, `managed
      ensures Maps()
      ensures !done ==> localWorkspaces == old(localWorkspaces) && localPrimary == old(localPrimary) && managed == old(managed)
      ensures done ==> mode == PerOutputLocal && Rebuilds(old(localWorkspaces), old(managed), old(localPrimary), localPrimary) &&
                       localWorkspaces == Rebuilt(old(localWorkspaces), native.desktops, localPrimary.value) && Covers(localWorkspaces, native.desktops)
      ensures done <== mode == PerOutputLocal && native.faithful && native.Live().Some? && native.Connected().Some? && Keys(native.screens) != []
    {
      hide MapsHold, Sane, Covers;
      done := false;
      if mode != PerOutputLocal {
        return;
      }
      var screens := native.ReadScreens();
      if screens.None? {
        return;
      }
      var keys := KeysFor(screens.value);
      if keys == [] {
        return;
      }
      var live := provided;
      if live.None? {
        live := native.ReadDesktops();
      }
      if live.None? {
        return;
      }
      RebuildLocalFrom(keys, live.value);
      done := true;
    }

    method RebuildLocalFrom(keys: seq<OutputKey>, live: seq<DesktopId>)
      requires Maps() && live == native.desktops && keys == Keys(native.screens) && keys != []
      modifies `localWorkspaces, `localPrimary, `managed
      ensures Maps() && Rebuilds(old(localWorkspaces), old(managed), old(localPrimary), localPrimary)
      ensures localWorkspaces == Rebuilt(old(localWorkspaces), live, localPrimary.value) && Covers(localWorkspaces, live)
    {
      hide MapsHold, Covers;
      if localPrimary.None? || localPrimary.value !in keys {
        localPrimary := Some(keys[0]);
      }
      HoldRebuilt(localWorkspaces, Global(), live, native.next, localPrimary.value);
      var kept := map key | key in localWorkspaces :: Only(localWorkspaces[key], live);
      var list, adopted := AdoptUnlisted(kept, localPrimary.value, live);
      localWorkspaces := kept[localPrimary.value := list];
      managed := managed + adopted;
    }

    method AssignGlobal(id: DesktopId, key: OutputKey)
      modifies `globalAssigned, `globalInverse
      ensures Global() == Assigned(old(Global()), id, key)
    {
      if id in globalInverse && globalInverse[id] != key && globalInverse[id] in globalAssigned {
        var prior := globalInverse[id];
        globalAssigned := globalAssigned[prior := RemoveFirst(globalAssigned[prior], id)];
      }
      globalInverse := globalInverse[id := key];
      var list := At(globalAssigned, key);
      globalAssigned := globalAssigned[key := if id in list then list else list + [id]];
    }

    method UnassignGlobal(id: DesktopId)
      modifies `globalAssigned, `globalInverse
      ensures Global() == Unassigned(old(Global()), id)
    {
      if id !in globalInverse {
        return;
      }
      var key := globalInverse[id];
      globalInverse := globalInverse - {id};
      if key in globalAssigned {
        globalAssigned := globalAssigned[key := RemoveFirst(globalAssigned[key], id)];
      }
    }

    /** The outputs whose empty lists a rebuild keeps. */
    ghost function Held(outputs: seq<Output>): set<OutputKey>
      reads outputKeys`slots, outputKeys`byOutput, `displacedByOrigin
    {
      SetOf(Keys(outputs)) + displacedByOrigin.Keys
    }

    /** Give every live desktop without an output to the primary. */
    method AdoptHomeless(live: seq<DesktopId>, primary: OutputKey)
      requires Maps() && live == native.desktops
      modifies `globalAssigned, `globalInverse, `managed
      ensures Maps() && Global() == AssignedAll(old(Global()), Homeless(old(Global()), live), primary)
      ensures managed == old(managed) + SetOf(Homeless(old(Global()), live))
    {
      hide MapsHold;
      ghost var start := Global();
      OldIds(localWorkspaces, start, live, native.next, live);
      for i := 0 to |live|
        invariant Global() == AssignedAll(start, Homeless(start, live[..i]), primary)
        invariant managed == old(managed) + SetOf(Homeless(start, live[..i]))
      {
        AdoptStep(start, live, i, primary);
        if live[i] !in globalInverse {
          AssignGlobal(live[i], primary);
          managed := managed + {live[i]};
        }
      }
      assert live[..|live|] == live;
      FilterMembers(x => x !in start.inverse, live);
      HoldAssigned(localWorkspaces, start, live, native.next, Homeless(start, live), primary);
    }

    /** Drop what is no longer live; an empty list stays only for a connected or displaced output. */
    method PruneGlobal(keys: seq<OutputKey>, live: seq<DesktopId>)
      requires Maps() && live == native.desktops
      modifies `globalAssigned, `globalInverse
      ensures Maps() && Global() == Pruned(old(Global()), live, SetOf(keys) + displacedByOrigin.Keys)
    {
      hide MapsHold;
      ghost var start, held := Global(), SetOf(keys) + displacedByOrigin.Keys;
      globalAssigned := map key | key in globalAssigned && (key in keys || key in displacedByOrigin || Only(globalAssigned[key], live) != []) ::
        Only(globalAssigned[key], live);
      globalInverse := map id | id in globalInverse && id in live :: globalInverse[id];
      assert globalAssigned == Pruned(start, live, held).lists;
      HoldPruned(localWorkspaces, start, live, native.next, held);
    }

    method RebuildGlobalMapping(live: seq<DesktopId>) returns (ghost done: bool)
      requires Maps() && live == native.desktops
      modifies `globalAssigned, `globalInverse, `globalPrimary, `managed
      ensures Maps()
      ensures !done ==> Global() == old(Global()) && globalPrimary == old(globalPrimary) && managed == old(managed)
      ensures done ==>
                && Rebuilds(old(globalAssigned), old(managed), old(globalPrimary), globalPrimary)
                && Global() == GlobalRebuilt(old(Global()), live, Held(native.screens), globalPrimary.value)
                && Covers(globalAssigned, live)
                && globalAssigned == RebuiltGlobal(old(globalAssigned), live, Held(native.screens), globalPrimary.value)
      ensures done <== native.faithful && native.Connected().Some? && Keys(native.screens) != []
    {
      done := false;
      var screens := native.ReadScreens();
      if screens.None? {
        return;
      }
      var keys := KeysFor(screens.value);
      if keys == [] {
        return;
      }
      if globalPrimary.None? || globalPrimary.value !in keys {
        globalPrimary := Some(keys[0]);
      }
      ghost var start, held := Global(), Held(native.screens);
      PruneGlobal(keys, live);
      AdoptHomeless(live, globalPrimary.value);
      GlobalRebuiltCovers(start, live, held, globalPrimary.value);
      GlobalRebuiltLists(start, live, held, globalPrimary.value);
      HomelessIsUnlisted(start, live, held);
      done := true;
    }

    method RebuildSharedMapping(provided: Option<seq<DesktopId>>) returns (ghost done: bool)
      requires provided.Some? ==> provided.value == native.desktops
      modifies `sharedIds, `managed
      ensures !done ==> sharedIds == old(sharedIds) && managed == old(managed)
      ensures done ==> sharedIds == native.desktops && managed == old(managed) + SetOf(native.desktops)
      ensures done <== mode == Shared && (provided.Some? || (native.faithful && native.Live().Some?))
    {
      done := false;
      if mode != Shared {
        return;
      }
      var live := provided;
      if live.None? {
        live := native.ReadDesktops();
      }
      if live.None? {
        return;
      }
      sharedIds := [];
      var seen: set<DesktopId> := {};
      for i := 0 to |live.value|
        invariant managed == old(managed) && sharedIds == live.value[..i] && seen == SetOf(live.value[..i])
      {
        sharedIds, seen := sharedIds + [live.value[i]], seen + {live.value[i]};
      }
      assert live.value[..|live.value|] == live.value;
      managed := managed + seen;
      done := true;
    }

    // ---- creating and retiring desktops ----

    /** The lists of the mode. */
    function ModeLists(): Lists
      reads `localWorkspaces, `globalAssigned, `sharedIds
    {
      match mode
      case PerOutputLocal => localWorkspaces
      case GlobalUnique => globalAssigned
      case Shared => map[SHARED := sharedIds]
    }

    ghost function State(): Domain
      reads `localWorkspaces, `globalAssigned, `sharedIds, `managed, native`desktops, native`next
    {
      Domain(native.desktops, ModeLists(), managed, native.next)
    }

    /** What keeps a desktop from being retired, read off the adapter and the window system. */
    ghost function Circumstances(): Context
      reads `retained, `displacedByOrigin, outputKeys`slots, outputKeys`byOutput, native`screens, native`views, native`sharedView, native`windows
    {
      Context(Keys(native.screens), OccupiedBy(native.windows), native.Shown(), retained + DisplacedIds(displacedByOrigin), displacedByOrigin.Keys)
    }

    /** Create a desktop and manage it. */
    method AppendDesktop() returns (r: Option<DesktopId>)
      requires native.Valid() && Maps()
      modifies native`desktops, native`next, `managed
      ensures native.Valid() && Maps() && native.next >= old(native.next)
      ensures r.Some? ==> r.value == old(native.next) && native.desktops == old(native.desktops) + [r.value]
      ensures r.Some? ==> native.next == r.value + 1 && managed == old(managed) + {r.value}
      ensures r.None? ==> managed == old(managed)
      ensures OneAtMost(old(native.desktops), old(native.next), native.desktops)
      ensures native.faithful && old(native.Live()).Some? && |old(native.desktops)| < MAX_DESKTOPS ==> r.Some?
    {
      var before := native.ReadDesktops();
      if before.None? {
        return None;
      }
      ghost var live, next := native.desktops, native.next;
      var ok := native.CreateDesktop();
      HoldOn(localWorkspaces, Global(), live, next, native.desktops, native.next);
      if !ok {
        return None;
      }
      var after := native.ReadDesktops();
      if after.None? {
        return None;
      }
      var added := Without(after.value, before.value);
      NewIsLast(live, next);
      managed := managed + {added[|added| - 1]};
      r := Some(added[|added| - 1]);
    }

    method AppendDesktopForOutputKey(key: OutputKey) returns (r: Option<DesktopId>)
      requires native.Valid() && Maps()
      modifies native`desktops, native`next, `managed, `localWorkspaces
      ensures native.Valid() && Maps() && native.next >= old(native.next) && OneAtMost(old(native.desktops), old(native.next), native.desktops)
      ensures r.Some? ==>
                && r.value == old(native.next) && native.next == r.value + 1 && native.desktops == old(native.desktops) + [r.value]
                && managed == old(managed) + {r.value} && localWorkspaces == Appended(old(localWorkspaces), key, [r.value])
      ensures r.None? ==> localWorkspaces == old(localWorkspaces) && managed == old(managed)
      ensures native.faithful && old(native.Live()).Some? && |old(native.desktops)| < MAX_DESKTOPS ==> r.Some?
    {
      hide MapsHold, Sane;
      ghost var before := native.desktops;
      r := AppendDesktop();
      if r.Some? {
        HoldAppended(localWorkspaces, Global(), before, r.value, key, native.desktops);
        localWorkspaces := localWorkspaces[key := At(localWorkspaces, key) + [r.value]];
      }
    }

    method AppendDesktopForGlobalKey(key: OutputKey) returns (r: Option<DesktopId>)
      requires native.Valid() && Maps()
      modifies native`desktops, native`next, `managed, `globalAssigned, `globalInverse
      ensures native.Valid() && Maps() && native.next >= old(native.next) && OneAtMost(old(native.desktops), old(native.next), native.desktops)
      ensures r.Some? ==>
                && r.value == old(native.next) && native.next == r.value + 1 && native.desktops == old(native.desktops) + [r.value]
                && managed == old(managed) + {r.value} && globalAssigned == Appended(old(globalAssigned), key, [r.value])
      ensures r.None? ==> Global() == old(Global()) && managed == old(managed)
      ensures native.faithful && old(native.Live()).Some? && |old(native.desktops)| < MAX_DESKTOPS ==> r.Some?
    {
      hide MapsHold, Sane;
      ghost var before := native.desktops;
      r := AppendDesktop();
      if r.Some? {
        HoldAssignedNew(localWorkspaces, Global(), before, r.value, key, native.desktops);
        AssignGlobal(r.value, key);
      }
    }

    method AppendDesktopForShared() returns (r: Option<DesktopId>)
      requires native.Valid() && Maps() && mode == Shared
      modifies native`desktops, native`next, `managed, `sharedIds
      ensures native.Valid() && Maps() && native.next >= old(native.next) && OneAtMost(old(native.desktops), old(native.next), native.desktops)
      ensures r.Some? ==> r.value == old(native.next) && native.next == r.value + 1 && native.desktops == old(native.desktops) + [r.value]
      ensures r.None? ==> sharedIds == old(sharedIds) && managed == old(managed)
      ensures native.faithful && old(native.Live()).Some? && |old(native.desktops)| < MAX_DESKTOPS ==>
                r.Some? && sharedIds == native.desktops && managed == old(managed) + {r.value} + SetOf(native.desktops)
    {
      hide MapsHold, Sane;
      r := AppendDesktop();
      if r.Some? {
        var done := RebuildSharedMapping(None);
      }
    }

    /** Create a desktop and put it last on the output's list; when that fails the lists are as they were. */
    method AppendDesktopFor(key: OutputKey) returns (r: Option<DesktopId>)
      requires native.Valid() && Maps()
      modifies native`desktops, native`next, `managed, `localWorkspaces, `globalAssigned, `globalInverse, `sharedIds
      ensures native.Valid() && Maps() && native.next >= old(native.next) && OneAtMost(old(native.desktops), old(native.next), native.desktops)
      ensures r.None? ==> ModeLists() == old(ModeLists()) && Global() == old(Global()) && managed == old(managed)
      ensures mode != PerOutputLocal ==> localWorkspaces == old(localWorkspaces)
      ensures mode != GlobalUnique ==> Global() == old(Global())
      ensures r.Some? ==> r.value == old(native.next) && r.value in native.desktops
      ensures r.Some? && mode != Shared ==> State() == Created(old(State()), key)
      ensures native.faithful && old(native.Live()).Some? && |old(native.desktops)| < MAX_DESKTOPS
              && (mode == Shared ==> key == SHARED && old(SharedInStep())) ==>
                r.Some? && State() == Created(old(State()), key) && (mode == Shared ==> SharedInStep())
    {
      hide MapsHold, Sane;
      match mode {
        case PerOutputLocal => r := AppendDesktopForOutputKey(key);
        case GlobalUnique => r := AppendDesktopForGlobalKey(key);
        case Shared =>
          ghost var was := managed;
          r := AppendDesktopForShared();
          SharedCreated(old(native.desktops), old(native.next), was);
      }
    }

    /** The shared list is the live desktops, all managed. */
    ghost predicate SharedInStep()
      reads `sharedIds, `managed, native`desktops
    {
      sharedIds == native.desktops && forall id <- native.desktops :: id in managed
    }

    /** What the passed-in view and window sets must cover for a removal to be safe. */
    ghost predicate Sees(visible: set<DesktopId>, occupied: set<DesktopId>)
      reads native`screens, native`views, native`sharedView, native`windows
    {
      native.Shown() <= visible && OccupiedBy(native.windows) <= occupied
    }

    predicate MayRemove(id: DesktopId, visible: set<DesktopId>, occupied: set<DesktopId>)
      reads `managed, `retained, `displacedByOrigin
    {
      && id in managed && id !in visible && id !in retained && id !in occupied
      && id !in DisplacedIds(displacedByOrigin)
    }

    /** Ask the window system for the removal, recording the state it is asked in. */
    method RequestRemoval(id: DesktopId, live: seq<DesktopId>, visible: set<DesktopId>, occupied: set<DesktopId>) returns (ok: bool)
      requires native.Valid() && Maps() && RemovalsGuarded() && Sees(visible, occupied)
      requires MayRemove(id, visible, occupied) && live == native.desktops && |live| > MIN_DESKTOPS && Last(live) != Some(id)
      modifies native`desktops, native`removals
      ensures native.Valid() && Maps() && RemovalsGuarded() && Logged()
      ensures ok ==> native.desktops == Without(old(native.desktops), [id])
      ensures native.desktops == old(native.desktops) || native.desktops == Without(old(native.desktops), [id])
      ensures native.faithful ==> ok
    {
      ok := native.RemoveDesktop(id, retained, DisplacedIds(displacedByOrigin), managed);
      WithoutMembers(live, [id]);
      HoldOn(localWorkspaces, Global(), live, native.next, native.desktops, native.next);
    }

    /** Drop a removed desktop from the mapping of the mode. */
    method Forget(id: DesktopId)
      requires Maps()
      modifies `managed, `localWorkspaces, `globalAssigned, `globalInverse, `sharedIds
      ensures Maps()
      ensures mode != Shared ==> ModeLists() == Removed(old(ModeLists()), [id]) && managed == old(managed) - {id}
      ensures mode == Shared && native.faithful && native.Live().Some? ==>
                sharedIds == native.desktops && managed == old(managed) - {id} + SetOf(native.desktops)
    {
      hide MapsHold;
      managed := managed - {id};
      match mode {
        case PerOutputLocal =>
          ghost var was := localWorkspaces;
          localWorkspaces := map key | key in localWorkspaces :: RemoveFirst(localWorkspaces[key], id);
          HoldRemoved(was, Global(), native.desktops, native.next, id, localWorkspaces);
        case GlobalUnique =>
          HoldUnassigned(localWorkspaces, Global(), native.desktops, native.next, id);
          UnassignGlobal(id);
        case Shared =>
          var done := RebuildSharedMapping(None);
      }
    }

    /** Retire a desktop unless a guard holds it. */
    method RemoveManagedEmpty(id: DesktopId, visible: set<DesktopId>, occupied: set<DesktopId>, count: Option<nat>,
                              ghost c: Context, ghost primary: OutputKey) returns (ok: bool)
      requires native.Valid() && Maps() && RemovalsGuarded() && c == Circumstances() && visible == c.visible && occupied == c.occupied
      modifies native`desktops, native`removals, `managed, `localWorkspaces, `globalAssigned, `globalInverse, `sharedIds
      ensures native.Valid() && Maps() && RemovalsGuarded() && Logged()
      ensures Tended(mode, c, 0, old(State()), State())
      // Whatever can be read, a list of at most two keeps its desktop.
      ensures count.Some? && count.value <= 2 ==> !ok && State() == old(State()) && native.removals == old(native.removals)
      ensures native.faithful && old(native.Live()).Some? && Settled(mode, c, old(State()), primary) ==>
                var n := if count.Some? then count.value else MIN_DESKTOPS + 1;
                ok == Removable(c, old(State()), id, n) && State() == TryRemove(c, old(State()), id, n)
    {
      hide Tended, MapsHold, Sane, Settled, AllGuarded;
      TendedSame(mode, c, State(), State(), localWorkspaces, Global());
      if !MayRemove(id, visible, occupied) {
        return false;
      }
      var live := native.ReadDesktops();
      if live.None? || |live.value| <= MIN_DESKTOPS || live.value[|live.value| - 1] == id {
        return false;
      }
      if count.Some? && count.value <= MIN_DESKTOPS {
        return false;
      }
      if id !in live.value {
        return false;
      }
      ok := RequestAndForget(id, live.value, visible, occupied, c, primary);
    }

    /** The removal itself: out of the window system, then out of the mapping. */
    method RequestAndForget(id: DesktopId, live: seq<DesktopId>, visible: set<DesktopId>, occupied: set<DesktopId>,
                            ghost c: Context, ghost primary: OutputKey) returns (ok: bool)
      requires native.Valid() && Maps() && RemovalsGuarded() && c == Circumstances() && visible == c.visible && occupied == c.occupied
      requires MayRemove(id, visible, occupied) && native.Live() == Some(live) && id in live && |live| > MIN_DESKTOPS && Last(live) != Some(id)
      modifies native`desktops, native`removals, `managed, `localWorkspaces, `globalAssigned, `globalInverse, `sharedIds
      ensures native.Valid() && Maps() && RemovalsGuarded() && Logged()
      ensures Tended(mode, c, 0, old(State()), State())
      ensures native.faithful && Settled(mode, c, old(State()), primary) ==> ok && State() == Dropped(old(State()), id)
    {
      hide Tended, MapsHold, Sane, Settled, AllGuarded;
      ghost var start, local, g := State(), localWorkspaces, Global();
      ok := RequestRemoval(id, live, visible, occupied);
      if ok {
        StillReadable(start.live, id, local, g, start.next);
        Forget(id);
        if mode == Shared && Settled(mode, c, start, primary) {
          DroppedShared(c, start, primary, id);
        }
      }
      TendedRemoved(mode, c, start, State(), id, local, g);
    }

    // ---- cleanup ----

    /** How many desktops the output's list has now. */
    method DomainCount(key: OutputKey, orderedIds: seq<DesktopId>) returns (n: nat)
      ensures native.faithful && native.Live().Some? && Covers(ModeLists(), native.desktops) && (mode == Shared ==> key == SHARED) && key in ModeLists() ==>
                n == |ModeLists()[key]| || (mode == Shared && n == |native.desktops|)
    {
      if mode == PerOutputLocal {
        return if key in localWorkspaces then |localWorkspaces[key]| else |orderedIds|;
      }
      var live := native.ReadDesktops();
      if live.None? {
        return |orderedIds|;
      }
      if mode == Shared {
        return |live.value|;
      }
      assert key in globalAssigned ==> forall x <- globalAssigned[key] :: x in Listed(globalAssigned);
      OnlyMembers(At(globalAssigned, key), live.value);
      n := |Only(At(globalAssigned, key), live.value)|;
    }

    /** The adapter and the window system can be relied on for one list's turn. */
    ghost predicate Exact(c: Context, primary: OutputKey, key: OutputKey, orderedIds: seq<DesktopId>)
      reads this, native
    {
      && native.faithful && native.Live().Some? && Settled(mode, c, State(), primary)
      && key in Kept(mode, c) && orderedIds == At(ModeLists(), key)
      && |WithTrailing(c, State(), key).live| <= MAX_DESKTOPS
    }

    /** One desktop's turn: the trailing, occupied and visible ones are passed over. */
    method RetireNext(orderedIds: seq<DesktopId>, i: nat, removedIds: seq<DesktopId>, key: OutputKey, trailing: Option<DesktopId>,
                      visible: set<DesktopId>, occupied: set<DesktopId>,
                      ghost c: Context, ghost primary: OutputKey, ghost start: Domain, ghost exact: bool)
      returns (after: seq<DesktopId>)
      requires native.Valid() && Maps() && RemovalsGuarded() && c == Circumstances() && visible == c.visible && occupied == c.occupied
      requires i < |orderedIds| && trailing == Trailing(c, orderedIds)
      requires exact ==> native.faithful && Turn(mode, c, primary, start, key, orderedIds, i, removedIds, State())
      modifies native`desktops, native`removals, `managed, `localWorkspaces, `globalAssigned, `globalInverse, `sharedIds
      ensures native.Valid() && Maps() && RemovalsGuarded() && Logged()
      ensures Tended(mode, c, 0, old(State()), State())
      ensures exact ==> Turn(mode, c, primary, start, key, orderedIds, i + 1, after, State())
    {
      hide Turn, Tended, Settled, MapsHold, Sane, AllGuarded;
      var id := orderedIds[i];
      TendedSame(mode, c, State(), State(), localWorkspaces, Global());
      if exact {
        TurnStep(mode, c, primary, start, key, orderedIds, i, removedIds, State());
      }
      if Some(id) == trailing || id in occupied || id in visible {
        return removedIds;
      }
      var count := DomainCount(key, orderedIds);
      var removed := RemoveManagedEmpty(id, visible, occupied, Some(count), c, primary);
      after := if removed then removedIds + [id] else removedIds;
    }

    /** Every desktop of the list in turn. */
    method RetireAll(orderedIds: seq<DesktopId>, key: OutputKey, visible: set<DesktopId>, occupied: set<DesktopId>,
                     ghost c: Context, ghost primary: OutputKey, ghost start: Domain, ghost exact: bool)
      returns (removedIds: seq<DesktopId>)
      requires native.Valid() && Maps() && RemovalsGuarded() && c == Circumstances() && visible == c.visible && occupied == c.occupied
      requires exact ==> native.faithful && Turn(mode, c, primary, start, key, orderedIds, 0, [], State())
      modifies native`desktops, native`removals, `managed, `localWorkspaces, `globalAssigned, `globalInverse, `sharedIds
      ensures native.Valid() && Maps() && RemovalsGuarded() && Logged()
      ensures Tended(mode, c, 0, old(State()), State())
      ensures exact ==> Turn(mode, c, primary, start, key, orderedIds, |orderedIds|, removedIds, State())
    {
      hide MapsHold, Sane, AllGuarded, RecordsSound, ViewHistory.Sound, Turn, Tended;
      var trailing := if orderedIds != [] && orderedIds[|orderedIds| - 1] !in occupied then Some(orderedIds[|orderedIds| - 1]) else None;
      removedIds := [];
      ghost var first := State();
      TendedSame(mode, c, first, first, localWorkspaces, Global());
      for i := 0 to |orderedIds|
        invariant native.Valid() && Maps() && RemovalsGuarded() && Logged()
        invariant Tended(mode, c, 0, first, State())
        invariant exact ==> Turn(mode, c, primary, start, key, orderedIds, i, removedIds, State())
      {
        ghost var was := State();
        removedIds := RetireNext(orderedIds, i, removedIds, key, trailing, visible, occupied, c, primary, start, exact);
        TendedOn(mode, c, 0, 0, first, was, State());
      }
    }

    /** A list that does not end empty gets a new desktop. */
    method AppendMissing(remaining: seq<DesktopId>, key: OutputKey, occupied: set<DesktopId>, ghost c: Context, ghost primary: OutputKey,
                         ghost exact: bool)
      returns (r: Option<DesktopId>)
      requires native.Valid() && Maps() && occupied == c.occupied && (mode != Shared ==> key in c.keys)
      requires exact ==> native.faithful && Settled(mode, c, State(), primary) && 0 < |State().live| <= MAX_DESKTOPS
      requires exact ==> (mode == Shared ==> key == SHARED) && (Trailing(c, remaining).None? ==> |State().live| < MAX_DESKTOPS)
      modifies native`desktops, native`next, `managed, `localWorkspaces, `globalAssigned, `globalInverse, `sharedIds
      ensures native.Valid() && Maps() && Tended(mode, c, 1, old(State()), State())
      ensures exact ==> State() == if Trailing(c, remaining).Some? then old(State()) else Created(old(State()), key)
    {
      hide Tended, MapsHold, Sane;
      ghost var was, local, g := State(), localWorkspaces, Global();
      TendedGrown(mode, c, was, was, key, local, g);
      r := None;
      if remaining == [] || remaining[|remaining| - 1] in occupied {
        r := AppendDesktopFor(key);
        TendedGrown(mode, c, was, State(), key, local, g);
      }
    }

    /** Retire the empty desktops of one list except the trailing one; append one if it is missing. */
    method EnsureTrailingEmptyDesktop(orderedIds: seq<DesktopId>, key: OutputKey, visible: set<DesktopId>, occupied: set<DesktopId>,
                                      ghost c: Context, ghost primary: OutputKey)
      returns (removedIds: seq<DesktopId>, appendedId: Option<DesktopId>)
      requires native.Valid() && Maps() && RemovalsGuarded() && c == Circumstances() && visible == c.visible && occupied == c.occupied
      requires mode != Shared ==> key in c.keys
      modifies native`desktops, native`next, native`removals, `managed, `localWorkspaces, `globalAssigned, `globalInverse, `sharedIds
      ensures native.Valid() && Maps() && RemovalsGuarded() && Logged()
      ensures Tended(mode, c, 1, old(State()), State())
      ensures old(Exact(c, primary, key, orderedIds)) ==> State() == WithTrailing(c, old(State()), key)
      ensures old(Exact(c, primary, key, orderedIds)) ==> KeepsTwo(At(old(State()).lists, key), At(State().lists, key))
    {
      hide Tended, Turn, Settled, WithTrailing, MapsHold, Sane, AllGuarded;
      ghost var start, exact := State(), Exact(c, primary, key, orderedIds);
      if exact {
        TurnStart(mode, c, primary, start, key, orderedIds);
      }
      removedIds := RetireAll(orderedIds, key, visible, occupied, c, primary, start, exact);
      ghost var retired := State();
      if exact {
        TurnEnd(mode, c, primary, start, key, orderedIds, removedIds, State());
      }
      appendedId := AppendMissing(Without(orderedIds, removedIds), key, occupied, c, primary, exact);
      TendedOn(mode, c, 0, 1, start, retired, State());
      if exact {
        TurnKeepsTwo(mode, c, start, primary, key);
      }
    }

    /** One list after the other. */
    method EnforceLists(keys: seq<OutputKey>, live: seq<DesktopId>, visible: set<DesktopId>, occupied: set<DesktopId>,
                        ghost c: Context, ghost primary: OutputKey, ghost exact: bool)
      requires native.Valid() && Maps() && RemovalsGuarded() && c == Circumstances() && visible == c.visible && occupied == c.occupied
      requires exact ==> native.faithful && Visit(mode, c, primary, State(), keys, 0, State()) && live == native.desktops
      requires mode != Shared ==> forall key <- keys :: key in c.keys
      modifies native`desktops, native`next, native`removals, `managed, `localWorkspaces, `globalAssigned, `globalInverse, `sharedIds
      ensures native.Valid() && Maps() && RemovalsGuarded() && Logged()
      ensures Tended(mode, c, |keys|, old(State()), State())
      ensures exact ==> Visit(mode, c, primary, old(State()), keys, |keys|, State())
    {
      hide MapsHold, Sane, AllGuarded, RecordsSound, ViewHistory.Sound, Tended, Visit, Settled, WithTrailing, Circumstances;
      ghost var start := State();
      TendedSame(mode, c, start, start, localWorkspaces, Global());
      for i := 0 to |keys|
        invariant native.Valid() && Maps() && RemovalsGuarded() && Logged()
        invariant Tended(mode, c, i, start, State())
        invariant exact ==> Visit(mode, c, primary, start, keys, i, State())
      {
        ghost var was := State();
        var orderedIds := match mode
          case PerOutputLocal => At(localWorkspaces, keys[i])
          case GlobalUnique => Only(At(globalAssigned, keys[i]), live)
          case Shared => live;
        if exact {
          VisitStep(mode, c, primary, start, keys, i, State());
        }
        var removedIds, appendedId := EnsureTrailingEmptyDesktop(orderedIds, keys[i], visible, occupied, c, primary);
        TendedOn(mode, c, i, 1, start, was, State());
      }
    }

    /** Retire the desktops no local list names. */
    method SweepUnlisted(visible: set<DesktopId>, occupied: set<DesktopId>, ghost c: Context, ghost primary: OutputKey, ghost exact: bool)
      requires native.Valid() && Maps() && RemovalsGuarded() && c == Circumstances() && visible == c.visible && occupied == c.occupied
      requires exact ==> Covers(localWorkspaces, native.desktops)
      modifies native`desktops, native`removals, `managed, `localWorkspaces, `globalAssigned, `globalInverse, `sharedIds
      ensures native.Valid() && Maps() && RemovalsGuarded() && Logged()
      ensures Tended(mode, c, 0, old(State()), State())
      ensures exact ==> State() == old(State())
    {
      hide MapsHold, Sane, AllGuarded, Tended, Settled;
      ghost var start := State();
      TendedSame(mode, c, start, start, localWorkspaces, Global());
      var listed := Listed(localWorkspaces);
      var live := native.ReadDesktops();
      var remaining := if live.Some? then live.value else [];
      for i := 0 to |remaining|
        invariant native.Valid() && Maps() && RemovalsGuarded() && Logged()
        invariant Tended(mode, c, 0, start, State())
        invariant exact ==> State() == old(State())
      {
        var id := remaining[i];
        if id in listed || id in occupied || id in visible {
          continue;
        }
        ghost var was := State();
        var removed := RemoveManagedEmpty(id, visible, occupied, None, c, primary);
        TendedOn(mode, c, 0, 0, start, was, State());
      }
    }

    /** Give every list of the mode its trailing empty desktop. */
    method EnforceTrailing(visible: set<DesktopId>, occupied: set<DesktopId>, ghost c: Context, ghost primary: OutputKey, ghost exact: bool)
      requires native.Valid() && Maps() && RemovalsGuarded() && c == Circumstances() && visible == c.visible && occupied == c.occupied
      requires exact ==> native.faithful && native.Readable() && Settled(mode, c, State(), primary) && RoomFor(c, State(), Kept(mode, c))
      modifies native`desktops, native`next, native`removals, `managed, `localWorkspaces, `globalAssigned, `globalInverse, `sharedIds
      ensures native.Valid() && Maps() && RemovalsGuarded() && Logged()
      ensures Tended(mode, c, |Kept(mode, c)|, old(State()), State())
      ensures exact ==> State() == Enforced(c, old(State()), Kept(mode, c))
    {
      hide Tended, Settled, RoomFor, Enforced, Visit, Covers, MapsHold, Sane, AllGuarded;
      ghost var start := State();
      TendedSame(mode, c, start, start, localWorkspaces, Global());
      TendedMore(mode, c, 0, |Kept(mode, c)|, start, start);
      var live := native.ReadDesktops();
      if live.None? {
        return;
      }
      var keys := [SHARED];
      if mode != Shared {
        var screens := native.ReadScreens();
        if screens.None? {
          return;
        }
        keys := KeysFor(screens.value);
      }
      EnforceAll(keys, live.value, visible, occupied, c, primary, exact);
    }

    /** Every list in turn, then, in the local mode, the desktops on none. */
    method EnforceAll(keys: seq<OutputKey>, live: seq<DesktopId>, visible: set<DesktopId>, occupied: set<DesktopId>,
                      ghost c: Context, ghost primary: OutputKey, ghost exact: bool)
      requires native.Valid() && Maps() && RemovalsGuarded() && c == Circumstances() && visible == c.visible && occupied == c.occupied
      requires keys == Kept(mode, c) && NoDup(keys) && live == native.desktops && live != []
      requires exact ==> native.faithful && Settled(mode, c, State(), primary) && RoomFor(c, State(), keys)
      modifies native`desktops, native`next, native`removals, `managed, `localWorkspaces, `globalAssigned, `globalInverse, `sharedIds
      ensures native.Valid() && Maps() && RemovalsGuarded() && Logged()
      ensures Tended(mode, c, |keys|, old(State()), State())
      ensures exact ==> State() == Enforced(c, old(State()), keys)
    {
      hide Tended, Settled, RoomFor, Enforced, Visit, Covers, MapsHold, Sane, AllGuarded;
      ghost var start := State();
      if exact {
        VisitStart(mode, c, primary, start, keys);
      }
      EnforceLists(keys, live, visible, occupied, c, primary, exact);
      ghost var enforced := State();
      if exact {
        VisitEnd(mode, c, primary, start, keys, enforced);
      }
      if mode == PerOutputLocal {
        SweepUnlisted(visible, occupied, c, primary, exact);
        TendedOn(mode, c, |keys|, 0, start, enforced, State());
      }
    }

    /** The desktops in view, when every view can be read. */
    method VisibleIds() returns (r: Option<set<DesktopId>>)
      ensures r.Some? ==> r.value == native.Shown() && native.Connected().Some? && native.sharedView.Some?
      ensures r.Some? ==> forall output <- native.screens :: output in native.views
      // What a connected output shows, and the shared view.
      ensures r.Some? ==> forall id :: id in r.value <==> (exists output <- native.screens :: native.views[output] == id) || native.sharedView == Some(id)
      ensures native.faithful && native.Readable() ==> r.Some?
    {
      var screens := native.ReadScreens();
      if screens.None? {
        return None;
      }
      var visible: set<DesktopId> := {};
      for i := 0 to |screens.value|
        invariant visible == set output | output in screens.value[..i] && output in native.views :: native.views[output]
        invariant forall output <- screens.value[..i] :: output in native.views
      {
        var view := native.ReadView(screens.value[i]);
        if view.None? {
          return None;
        }
        visible := visible + {view.value};
        assert screens.value[..i + 1] == screens.value[..i] + [screens.value[i]];
      }
      var shared := native.ReadSharedView();
      if shared.None? {
        return None;
      }
      assert screens.value[..|screens.value|] == native.screens;
      r := Some(visible + {shared.value});
    }

    method OccupiedIds() returns (r: Option<set<DesktopId>>)
      ensures r.Some? ==> r.value == OccupiedBy(native.windows) && Decodable(native.windows)
      // A window on all desktops occupies none.
      ensures r.Some? ==> forall id :: id in r.value <==> exists w <- native.windows :: !w.sticky && id in w.desktops
      ensures native.faithful ==> (r.Some? <==> |native.windows| <= 1024 && forall w <- native.windows :: w.sticky || |w.desktops| <= 32)
    {
      var windows := native.ReadWindows();
      r := if windows.None? then None else Some(OccupiedBy(windows.value));
    }

    /** The primary output of the mode. */
    ghost function Primary(): OutputKey
      reads `localPrimary, `globalPrimary, native`screens, outputKeys`slots, outputKeys`byOutput
    {
      PrimaryOf(ModePrimary(), Keys(native.screens))
    }

    function ModePrimary(): Option<OutputKey>
      reads `localPrimary, `globalPrimary
    {
      if mode == PerOutputLocal then localPrimary else globalPrimary
    }

    /** Bring the mapping of the mode up to date. */
    method RebuildFor(live: seq<DesktopId>) returns (ghost done: bool)
      requires native.Valid() && Maps() && live == native.desktops
      modifies `localWorkspaces, `localPrimary, `globalAssigned, `globalInverse, `globalPrimary, `sharedIds, `managed
      ensures Maps() && Tended(mode, Circumstances(), 0, old(State()), State()) && Primary() == old(Primary())
      ensures done ==>
                && State() == Rebuild(mode, Circumstances(), old(State()), old(Primary()))
                && Settled(mode, Circumstances(), State(), Primary())
      ensures done <== native.faithful && native.Readable() && Kept(mode, Circumstances()) != []
    {
      hide MapsHold, Sane, AllGuarded, Tended, Settled, Startable, Rebuilt, RebuiltGlobal, Covers;
      ghost var c, start, primary, local, g := Circumstances(), State(), Primary(), localWorkspaces, Global();
      OccupiedBelow(native.desktops, native.screens, native.views, native.sharedView, native.windows, native.next);
      StartableFromMaps(mode, c, start, localWorkspaces, Global());
      match mode {
        case PerOutputLocal =>
          done := RebuildLocalMapping(Some(live));
          TendedRebuilt(mode, c, start, State(), Held(native.screens), if done then localPrimary else None, local, g);
        case GlobalUnique =>
          done := RebuildGlobalMapping(live);
          TendedRebuilt(mode, c, start, State(), Held(native.screens), if done then globalPrimary else None, local, g);
        case Shared =>
          done := RebuildSharedMapping(Some(live));
          TendedRebuilt(mode, c, start, State(), {}, None, local, g);
      }
      if done {
        RebuildSettles(mode, c, start, primary);
      }
    }

    /** Views, windows and desktops, or nothing when any of them cannot be read. */
    method ReadCleanupInputs() returns (r: Option<(set<DesktopId>, set<DesktopId>, seq<DesktopId>)>)
      ensures r.Some? ==> r.value == (native.Shown(), OccupiedBy(native.windows), native.desktops) && native.Readable()
      ensures native.faithful && native.Readable() ==> r.Some?
    {
      var visible := VisibleIds();
      if visible.None? {
        return None;
      }
      var occupied := OccupiedIds();
      if occupied.None? {
        return None;
      }
      var live := native.ReadDesktops();
      if live.None? {
        return None;
      }
      r := Some((visible.value, occupied.value, live.value));
    }

    /** One cleanup pass: with everything readable it does exactly what the pass over values does. */
    method CleanupDesktops()
      requires native.Valid() && Maps() && RemovalsGuarded()
      modifies native`desktops, native`next, native`removals, `managed, `localWorkspaces, `localPrimary, `globalAssigned, `globalInverse,
               `globalPrimary, `sharedIds
      ensures native.Valid() && Maps() && RemovalsGuarded() && Logged()
      // Whatever fails, no guarded desktop goes and none that stays leaves its list.
      ensures Tended(mode, Circumstances(), |Kept(mode, Circumstances())|, old(State()), State())
      ensures old(Dependable()) ==> Dependable() && Cleaned(old(Circumstances()), old(State()), old(Primary()))
      ensures native.faithful ==> Tidied(old(State()))
      ensures Primary() == old(Primary())
    {
      hide Tended, MapsHold, Sane, AllGuarded, Fits, Cleaned, Tidied, Kept, NativeWorkspace.Native.Visible;
      ghost var start := State();
      CleanUpReadable();
      if native.faithful {
        TidiedBy(start);
      }
    }

    method CleanUpReadable()
      requires native.Valid() && Maps() && RemovalsGuarded()
      modifies native`desktops, native`next, native`removals, `managed, `localWorkspaces, `localPrimary, `globalAssigned, `globalInverse,
               `globalPrimary, `sharedIds
      ensures native.Valid() && Maps() && RemovalsGuarded() && Logged()
      ensures Tended(mode, Circumstances(), |Kept(mode, Circumstances())|, old(State()), State())
      ensures old(Dependable()) ==> Dependable() && Cleaned(old(Circumstances()), old(State()), old(Primary()))
      ensures Primary() == old(Primary()) && (old(native.Readable()) || State() == old(State()))
    {
      hide Tended, MapsHold, Sane, AllGuarded, Decodable, Fits, Cleaned, Kept;
      ghost var c, start := Circumstances(), State();
      TendedSame(mode, c, start, start, localWorkspaces, Global());
      TendedMore(mode, c, 0, |Kept(mode, c)|, start, start);
      var read := ReadCleanupInputs();
      if read.Some? {
        CleanUpFrom(read.value.2, read.value.0, read.value.1);
      }
    }

    lemma TidiedBy(was: Domain)
      requires native.Visible() && 0 < |was.live| <= MAX_DESKTOPS && Kept(mode, Circumstances()) != [] && Fits(mode, Circumstances(), was, Primary()) ==>
                 Cleaned(Circumstances(), was, Primary())
      requires (native.Visible() && 0 < |was.live| <= MAX_DESKTOPS) || State() == was
      ensures Tidied(was)
    {
    }

    /** With everything readable and room the state is what one pass makes of the given one; with anything
        unreadable it is the given one. */
    ghost predicate Tidied(was: Domain)
      reads `localWorkspaces, `globalAssigned, `sharedIds, `managed, `localPrimary, `globalPrimary, `retained, `displacedByOrigin,
            native`desktops, native`next, native`screens, native`views, native`sharedView, native`windows, outputKeys`slots, outputKeys`byOutput
    {
      if native.Visible() && 0 < |was.live| <= MAX_DESKTOPS then
        Kept(mode, Circumstances()) != [] && Fits(mode, Circumstances(), was, Primary()) ==> State() == Pass(mode, Circumstances(), was, Primary())
      else State() == was
    }

    /** The state is what one pass makes of the given one; the circumstances and the primary are unchanged. No list
        of two or more, once brought up to date, is left with fewer, and none of at most two has lost any. */
    ghost predicate Cleaned(c: Context, start: Domain, primary: OutputKey)
      reads this, native, outputKeys
    {
      && Circumstances() == c && Primary() == primary && State() == Pass(mode, c, start, primary)
      && forall key <- Kept(mode, c) :: KeepsTwo(At(Rebuild(mode, c, start, primary).lists, key), At(State().lists, key))
    }

    method CleanUpFrom(live: seq<DesktopId>, visible: set<DesktopId>, occupied: set<DesktopId>)
      requires native.Valid() && Maps() && RemovalsGuarded() && live == native.desktops
      requires visible == native.Shown() && occupied == OccupiedBy(native.windows)
      modifies native`desktops, native`next, native`removals, `managed, `localWorkspaces, `localPrimary, `globalAssigned, `globalInverse,
               `globalPrimary, `sharedIds
      ensures native.Valid() && Maps() && RemovalsGuarded() && Logged()
      ensures Tended(mode, Circumstances(), |Kept(mode, Circumstances())|, old(State()), State())
      ensures old(Dependable()) ==> Dependable() && Cleaned(old(Circumstances()), old(State()), old(Primary()))
      ensures Primary() == old(Primary())
    {
      hide MapsHold, Sane, AllGuarded, Tended, Startable, Fits, Settled, Enforced, Pass;
      ghost var exact, c, start, primary, local, g := Dependable(), Circumstances(), State(), Primary(), localWorkspaces, Global();
      OccupiedBelow(native.desktops, native.screens, native.views, native.sharedView, native.windows, native.next);
      StartableFromMaps(mode, c, start, local, g);
      RebuildAndEnforce(live, visible, occupied, c, exact);
      if exact {
        StillDependable(c, start, primary);
      }
    }

    lemma StillDependable(c: Context, start: Domain, primary: OutputKey)
      requires native.faithful && native.Visible() && Kept(mode, c) != []
      requires Startable(mode, c, start) && Fits(mode, c, start, primary)
      requires c == Circumstances() && Primary() == primary && State() == Enforced(c, Rebuild(mode, c, start, primary), Kept(mode, c))
      ensures Dependable() && Cleaned(c, start, primary)
    {
      KeysOfNoDup(outputKeys.slots, outputKeys.byOutput, native.screens);
      AfterPass(mode, c, start, primary);
      forall key | key in Kept(mode, c)
        ensures KeepsTwo(At(Rebuild(mode, c, start, primary).lists, key), At(State().lists, key))
      {
        PassKeepsTwo(mode, c, start, primary, key);
      }
    }

    method RebuildAndEnforce(live: seq<DesktopId>, visible: set<DesktopId>, occupied: set<DesktopId>, ghost c: Context, ghost exact: bool)
      requires native.Valid() && Maps() && RemovalsGuarded() && live == native.desktops && c == Circumstances()
      requires visible == c.visible && occupied == c.occupied && (exact ==> Dependable())
      modifies native`desktops, native`next, native`removals, `managed, `localWorkspaces, `localPrimary, `globalAssigned, `globalInverse,
               `globalPrimary, `sharedIds
      ensures native.Valid() && Maps() && RemovalsGuarded() && Logged()
      ensures Tended(mode, c, |Kept(mode, c)|, old(State()), State()) && Primary() == old(Primary())
      ensures exact ==> State() == Enforced(c, Rebuild(mode, c, old(State()), old(Primary())), Kept(mode, c))
    {
      hide Tended, Settled, Enforced, Rebuild, Covers, RoomFor, MapsHold, Sane, AllGuarded;
      ghost var start := State();
      var done := RebuildFor(live);
      ghost var rebuilt := State();
      if exact {
        FitsMeans(mode, c, start, Primary());
      }
      EnforceTrailing(visible, occupied, c, Primary(), exact);
      TendedOn(mode, c, 0, |Kept(mode, c)|, start, rebuilt, State());
    }

    /** Every call can be relied on, everything is readable, some output is identified, and the
        desktops stay within the cap. */
    ghost predicate Dependable()
      reads this, native, outputKeys
    {
      && native.faithful && native.Readable() && Kept(mode, Circumstances()) != []
      && Fits(mode, Circumstances(), State(), Primary())
    }

    method CleanupTwice()
      requires native.Valid() && Maps() && RemovalsGuarded() && Dependable()
      modifies native`desktops, native`next, native`removals, `managed, `localWorkspaces, `localPrimary, `globalAssigned, `globalInverse,
               `globalPrimary, `sharedIds
      ensures native.Valid() && Maps() && RemovalsGuarded() && Dependable()
      ensures Cleaned(old(Circumstances()), Pass(mode, old(Circumstances()), old(State()), old(Primary())), old(Primary()))
    {
      hide MapsHold, Sane, AllGuarded;
      CleanupDesktops();
      CleanupDesktops();
    }

    /** With windows, views and kept desktops unchanged, a third pass changes nothing, and every
        connected output's list ends in an empty desktop. */
    method CleanupSettles()
      requires native.Valid() && Maps() && RemovalsGuarded() && Dependable()
      modifies native`desktops, native`next, native`removals, `managed, `localWorkspaces, `localPrimary, `globalAssigned, `globalInverse,
               `globalPrimary, `sharedIds
      ensures native.Valid() && Maps() && RemovalsGuarded()
      ensures FixedPoint(mode, Circumstances(), old(State()), old(Primary()), State())
    {
      ghost var c, start, primary := Circumstances(), State(), Primary();
      StartableFromMaps(mode, c, start, localWorkspaces, Global());
      KeysOfNoDup(outputKeys.slots, outputKeys.byOutput, native.screens);
      CleanupTwice();
      ghost var two := State();
      CleanupDesktops();
      FixedAfterTwo(mode, c, start, primary, Pass(mode, c, start, primary), two, State());
    }

    // ---- view history ----

    /** The views of the identified outputs, in output order. */
    ghost function Seen(outputs: seq<Output>): seq<(OutputKey, DesktopId)>
      reads outputKeys`slots, outputKeys`byOutput, native`views
    {
      SeenIn(outputKeys.slots, outputKeys.byOutput, native.views, outputs)
    }

    method ObserveView(key: OutputKey, view: DesktopId)
      requires Remembers()
      modifies `previousByOutput, `historyBaselineByKey
      ensures Remembers() && History() == ViewHistory.Observed(old(History()), key, view)
    {
      if key !in historyBaselineByKey {
        historyBaselineByKey := historyBaselineByKey[key := view];
      } else if historyBaselineByKey[key] != view {
        previousByOutput := previousByOutput[key := historyBaselineByKey[key]];
        historyBaselineByKey := historyBaselineByKey[key := view];
      }
    }

    /** Observe every output's view and forget the outputs that are gone. */
    method RecordHistoryObservations(screens: seq<Output>) returns (ghost seen: seq<(OutputKey, DesktopId)>)
      requires Remembers()
      modifies `previousByOutput, `historyBaselineByKey
      ensures Remembers()
      ensures History() == ViewHistory.Connected(ViewHistory.ObservedAll(old(History()), seen), SetOf(Keys(screens)))
      ensures native.faithful ==> seen == Seen(screens)
    {
      hide SeenIn, ViewHistory.Sound, ViewHistory.ObservedAll;
      ghost var start := History();
      seen := [];
      SeenNone(outputKeys.slots, outputKeys.byOutput, native.views, screens, start);
      for i := 0 to |screens|
        invariant Remembers() && History() == ViewHistory.ObservedAll(start, seen)
        invariant native.faithful ==> seen == Seen(screens[..i])
      {
        SeenNext(outputKeys.slots, outputKeys.byOutput, native.views, screens, i);
        var key := outputKeys.KeyFor(screens[i]);
        if key.None? {
          continue;
        }
        var view := native.ReadView(screens[i]);
        if view.None? {
          continue;
        }
        ObserveNext(start, seen, key.value, view.value);
        seen := seen + [(key.value, view.value)];
        ObserveView(key.value, view.value);
      }
      assert screens[..|screens|] == screens;
      var keys := KeysFor(screens);
      ForgetGone(keys);
    }

    method ForgetGone(keys: seq<OutputKey>)
      requires Remembers()
      modifies `previousByOutput, `historyBaselineByKey
      ensures Remembers() && History() == ViewHistory.Connected(old(History()), SetOf(keys))
    {
      historyBaselineByKey := map key | key in historyBaselineByKey && key in keys :: historyBaselineByKey[key];
      previousByOutput := map key | key in previousByOutput && key in keys :: previousByOutput[key];
    }

    method ObserveSharedHistory()
      modifies `lastSharedVisible, `previousShared
      ensures native.faithful && native.sharedView.Some? && old(lastSharedVisible).Some? && old(lastSharedVisible) != native.sharedView ==>
                previousShared == old(lastSharedVisible)
      ensures native.faithful && native.sharedView.Some? ==> lastSharedVisible == native.sharedView
      ensures previousShared == old(previousShared) || (previousShared == old(lastSharedVisible) && lastSharedVisible != previousShared)
    {
      var view := native.ReadSharedView();
      if view.None? {
        return;
      }
      if lastSharedVisible.Some? && lastSharedVisible != view {
        previousShared := lastSharedVisible;
      }
      lastSharedVisible := view;
    }

    /** Drop the entries whose desktop is gone or out of its output's scope. */
    method ValidatePreviousEntries()
      requires Remembers()
      modifies `previousByOutput, `previousShared
      ensures Remembers()
      ensures forall key <- previousByOutput :: key in old(previousByOutput) && previousByOutput[key] == old(previousByOutput)[key]
      ensures native.faithful && native.Live().Some? && mode != Shared ==>
                History() == ViewHistory.Validated(old(History()), native.desktops, ModeLists())
      ensures native.faithful && native.Live().Some? && mode == Shared && previousShared.Some? ==> previousShared.value in native.desktops
    {
      var live := native.ReadDesktops();
      if live.None? {
        return;
      }
      if mode == Shared {
        if previousShared.Some? && previousShared.value !in live.value {
          previousShared := None;
        }
        return;
      }
      previousByOutput := map key | key in previousByOutput && previousByOutput[key] in live.value && PreviousInScope(key, previousByOutput[key], live.value)
        :: previousByOutput[key];
      assert mode == GlobalUnique ==> forall key <- old(previousByOutput) ::
        old(previousByOutput)[key] in live.value ==> (PreviousInScope(key, old(previousByOutput)[key], live.value) <==> old(previousByOutput)[key] in At(globalAssigned, key)) by {
        forall key | key in old(previousByOutput)
          ensures forall x :: x in Only(At(globalAssigned, key), live.value) <==> x in At(globalAssigned, key) && x in live.value
        {
          OnlyMembers(At(globalAssigned, key), live.value);
        }
      }
    }

    predicate PreviousInScope(key: OutputKey, id: DesktopId, live: seq<DesktopId>)
      reads `localWorkspaces, `globalAssigned
    {
      if mode == GlobalUnique then id in Only(At(globalAssigned, key), live) else key in localWorkspaces && id in localWorkspaces[key]
    }

    // ---- displacement: single moves ----

    method RemoveLocalIdEverywhere(id: DesktopId)
      requires Maps()
      modifies `localWorkspaces
      ensures Maps() && localWorkspaces == Removed(old(localWorkspaces), [id])
    {
      hide MapsHold;
      ghost var was := localWorkspaces;
      localWorkspaces := map key | key in localWorkspaces :: RemoveFirst(localWorkspaces[key], id);
      HoldRemoved(was, Global(), native.desktops, native.next, id, localWorkspaces);
    }

    method RemoveLocalIdsEverywhere(ids: seq<DesktopId>)
      requires Maps()
      modifies `localWorkspaces
      ensures Maps() && localWorkspaces == Removed(old(localWorkspaces), ids)
    {
      hide MapsHold;
      ghost var start := localWorkspaces;
      RemovedNone(start);
      for i := 0 to |ids|
        invariant Maps() && localWorkspaces == Removed(start, ids[..i])
      {
        RemovedMore(start, ids[..i], ids[i]);
        assert ids[..i + 1] == ids[..i] + [ids[i]];
        RemoveLocalIdEverywhere(ids[i]);
      }
      assert ids[..|ids|] == ids;
    }

    /** Append in order what the list does not hold. */
    method AppendAll(list: seq<DesktopId>, ids: seq<DesktopId>) returns (r: seq<DesktopId>)
      requires NoDup(ids) && forall id <- ids :: id !in list
      ensures r == list + ids
    {
      r := list;
      for i := 0 to |ids|
        invariant r == list + ids[..i]
      {
        assert ids[i] !in ids[..i] && ids[i] in ids;
        if ids[i] !in r {
          r := r + [ids[i]];
        }
      }
    }

    /** Take the desktops off every list, then append them in order to one. */
    method MoveLocalIdsTo(ids: seq<DesktopId>, dest: OutputKey)
      requires Maps() && NoDup(ids) && forall id <- ids :: id < native.next
      modifies `localWorkspaces
      ensures Maps() && localWorkspaces == MovedTo(old(localWorkspaces), ids, dest)
    {
      hide MapsHold;
      HoldMoved(localWorkspaces, Global(), native.desktops, native.next, ids, dest);
      AtRemoved(localWorkspaces, ids, dest);
      RemoveLocalIdsEverywhere(ids);
      var list := AppendAll(At(localWorkspaces, dest), ids);
      localWorkspaces := localWorkspaces[dest := list];
    }

    method AssignGlobalAll(ids: seq<DesktopId>, key: OutputKey)
      requires Maps() && forall id <- ids :: id < native.next
      modifies `globalAssigned, `globalInverse
      ensures Maps() && Global() == AssignedAll(old(Global()), ids, key)
      ensures globalInverse == old(globalInverse) + Pointing(ids, key)
    {
      hide MapsHold;
      ghost var start := Global();
      for i := 0 to |ids|
        invariant Global() == AssignedAll(start, ids[..i], key)
      {
        assert ids[..i + 1] == ids[..i] + [ids[i]];
        AssignNext(start, ids[..i], ids[i], key);
        AssignGlobal(ids[i], key);
      }
      assert ids[..|ids|] == ids;
      HoldAssigned(localWorkspaces, start, native.desktops, native.next, ids, key);
      AssignedAllInverse(start, ids, key);
    }

    /** Put displaced desktops back on their recorded survivor's list. Without duplicates the
        source's count of occurrences decides nothing beyond membership of that list. */
    method EnsureLocalPresent(ids: seq<DesktopId>, dest: OutputKey)
      requires Maps() && NoDup(ids) && forall id <- ids :: id < native.next
      modifies `localWorkspaces
      ensures Maps()
      ensures localWorkspaces == MovedTo(old(localWorkspaces), Without(ids, At(old(localWorkspaces), dest)), dest)
    {
      hide MapsHold;
      ghost var start := localWorkspaces;
      MovedNothing(start, dest);
      HoldMoved(start, Global(), native.desktops, native.next, [], dest);
      localWorkspaces := localWorkspaces[dest := At(localWorkspaces, dest)];
      for i := 0 to |ids|
        invariant Maps() && localWorkspaces == MovedTo(start, Without(ids[..i], At(start, dest)), dest)
      {
        EnsureOneMore(start, ids, i, dest);
        assert ids[i] in ids;
        if ids[i] !in At(localWorkspaces, dest) {
          MoveLocalIdsTo([ids[i]], dest);
        }
      }
      assert ids[..|ids|] == ids;
    }

    /** Point displaced desktops back at their recorded survivor; those that point there are on its list. */
    method EnsureGlobalPresent(ids: seq<DesktopId>, dest: OutputKey)
      requires Maps() && forall id <- ids :: id in native.desktops
      modifies `globalAssigned, `globalInverse
      ensures Maps() && Global() == AssignedAll(old(Global()), ids, dest) && globalInverse == old(globalInverse) + Pointing(ids, dest)
    {
      hide MapsHold, Assigned;
      ghost var start := Global();
      for i := 0 to |ids|
        invariant Maps() && Global() == AssignedAll(start, ids[..i], dest)
      {
        assert ids[..i + 1] == ids[..i] + [ids[i]] && ids[i] in ids;
        PointsThere(localWorkspaces, Global(), native.desktops, native.next, ids[i], dest);
        AssignNext(start, ids[..i], ids[i], dest);
        if ids[i] !in globalInverse || globalInverse[ids[i]] != dest {
          AssignOne(ids[i], dest);
        }
      }
      assert ids[..|ids|] == ids;
      AssignedAllInverse(start, ids, dest);
    }

    method EnsureDisplacedPresent(ids: seq<DesktopId>, dest: OutputKey)
      requires Maps() && NoDup(ids) && (forall id <- ids :: id in native.desktops) && mode != Shared
      modifies `localWorkspaces, `globalAssigned, `globalInverse
      ensures Maps() && ModeLists() == Ensured(mode, old(ModeLists()), ids, dest)
      ensures mode == PerOutputLocal ==> Global() == old(Global())
      ensures mode == GlobalUnique ==> localWorkspaces == old(localWorkspaces) && globalInverse == old(globalInverse) + Pointing(ids, dest)
    {
      hide MapsHold;
      OldIds(localWorkspaces, Global(), native.desktops, native.next, ids);
      if mode == PerOutputLocal {
        EnsureLocalPresent(ids, dest);
      } else {
        EnsuredGlobally(Global(), native.desktops, ids, dest);
        EnsureGlobalPresent(ids, dest);
      }
    }

    /** An output that lost everything loses its list. */
    method DropOriginMapping(origin: OutputKey)
      requires Maps() && mode != Shared
      modifies `localWorkspaces, `globalAssigned
      ensures Maps() && (forall key :: At(localWorkspaces, key) == At(old(localWorkspaces), key))
      ensures ModeLists() == if mode == GlobalUnique && origin in displacedByOrigin then old(ModeLists()) else DroppedIfEmpty(old(ModeLists()), origin)
    {
      hide MapsHold;
      if mode == PerOutputLocal {
        if origin in localWorkspaces && localWorkspaces[origin] == [] {
          HoldDropped(localWorkspaces, Global(), native.desktops, native.next, origin);
          localWorkspaces := localWorkspaces - {origin};
        }
      } else if mode == GlobalUnique {
        if origin in globalAssigned && globalAssigned[origin] == [] && origin !in displacedByOrigin {
          HoldDroppedGlobal(localWorkspaces, Global(), native.desktops, native.next, origin);
          globalAssigned := globalAssigned - {origin};
        }
      }
    }

    /** The view follows the active window to where its desktop went. */
    twostate predicate Followed(ids: seq<DesktopId>, key: OutputKey, screens: seq<Output>)
      reads native`views, native`activeDesktops, native`desktops, outputKeys`slots, outputKeys`byOutput
    {
      FollowsActive(native.activeDesktops, native.Live(), ids, outputKeys.slots, outputKeys.byOutput, screens, key, old(native.views), native.views)
    }

    /** Show the active window's desktop where it went, if it went along. */
    method ShowIfActiveThere(ids: seq<DesktopId>, key: OutputKey, screens: seq<Output>)
      requires native.Valid()
      modifies native`views
      ensures native.Valid()
      ensures native.faithful ==> Followed(ids, key, screens)
    {
      var active := native.ReadActiveDesktops();
      var live := native.ReadDesktops();
      var output: Option<Output> := None;
      for i := 0 to |screens|
        invariant native.Valid() && native.views == old(native.views)
        invariant output.None? && forall m | 0 <= m < i :: KeyOf(outputKeys.slots, outputKeys.byOutput, screens[m]) != Some(key)
      {
        var k := outputKeys.KeyFor(screens[i]);
        if k == Some(key) {
          output := Some(screens[i]);
          assert FirstScreen(outputKeys.slots, outputKeys.byOutput, screens, key, i);
          break;
        }
      }
      for i := 0 to |active|
        invariant native.Valid() && native.views == old(native.views) && forall j | 0 <= j < i :: active[j] !in ids
      {
        if active[i] in ids {
          assert FirstAmong(active, ids, i);
          if output.Some? && live.Some? && active[i] in live.value {
            var shown := native.ShowOn(active[i], output.value);
          }
          break;
        }
      }
    }

    /** Append what is not there yet. */
    method Merge(base: seq<DesktopId>, more: seq<DesktopId>) returns (r: seq<DesktopId>)
      requires NoDup(base)
      ensures r == Merged(base, more) && NoDup(r) && forall id :: id in r <==> id in base || id in more
    {
      r := base;
      for i := 0 to |more|
        invariant r == Merged(base, more[..i])
      {
        assert more[..i + 1][..i] == more[..i];
        if more[i] !in r {
          r := r + [more[i]];
        }
      }
      assert more[..|more|] == more;
      MergedMembers(base, more);
    }

    // ---- displacement: lost and returned outputs ----

    /** The active screen's output while it is connected, else the first connected one. */
    ghost function Preferred(keys: seq<OutputKey>): OutputKey
      requires keys != []
      reads native`activeScreen, outputKeys`slots, outputKeys`byOutput
    {
      if native.activeScreen.Some? && KeyOf(outputKeys.slots, outputKeys.byOutput, native.activeScreen.value).Some?
         && KeyOf(outputKeys.slots, outputKeys.byOutput, native.activeScreen.value).value in keys
      then KeyOf(outputKeys.slots, outputKeys.byOutput, native.activeScreen.value).value
      else keys[0]
    }

    /** The survivor chosen, when readings can be relied on. */
    ghost function Choice(keys: seq<OutputKey>): Option<OutputKey>
      reads native`activeScreen, outputKeys`slots, outputKeys`byOutput
    {
      if native.faithful && keys != [] then Some(Preferred(keys)) else None
    }

    /** Where the desktops of a lost output go. */
    method SelectSurvivorKey(keys: seq<OutputKey>) returns (dest: OutputKey)
      requires keys != []
      ensures Suits(dest, keys, Choice(keys))
    {
      var screen := native.ReadActiveScreen();
      var active: Option<OutputKey> := None;
      if screen.Some? {
        active := outputKeys.KeyFor(screen.value);
      }
      dest := Survivor(keys, active);
    }

    /** An output already displaced: keep its desktops on the survivor, or find a new survivor when
        that one is gone. The move to a new survivor edits the local lists in every mode. */
    method KeepDisplaced(origin: OutputKey, live: seq<DesktopId>, keys: seq<OutputKey>) returns (ghost survivor: OutputKey)
      requires native.Valid() && Maps() && Records() && live == native.desktops
      requires keys != [] && origin !in keys && origin in displacedByOrigin && mode != Shared
      modifies `localWorkspaces, `globalAssigned, `globalInverse, `displacedByOrigin
      ensures Maps() && Records()
      ensures Carried(mode, old(localWorkspaces), old(Global()), localWorkspaces, Global(), live, keys)
      ensures forall key | key != origin :: RecordOf(displacedByOrigin, key) == RecordOf(old(displacedByOrigin), key)
      ensures forall id | id !in old(displacedByOrigin)[origin].ids :: PointOf(globalInverse, id) == PointOf(old(globalInverse), id)
      // With its survivor there the record stands and its live desktops are on that survivor alone; a new
      // survivor takes them in the local lists, whatever the mode.
      ensures var was := old(displacedByOrigin)[origin];
              var stillLive := Only(was.ids, live);
              if was.dest in keys then displacedByOrigin == old(displacedByOrigin) && AllOn(ModeLists(), stillLive, was.dest)
              else if stillLive == [] then displacedByOrigin == old(displacedByOrigin) - {origin}
              else
                && origin in displacedByOrigin && displacedByOrigin[origin].ids == stillLive && displacedByOrigin[origin].dest == survivor
                && AllOn(localWorkspaces, stillLive, displacedByOrigin[origin].dest)
      ensures Suits(survivor, keys, Choice(keys))
      ensures ModeLists() == KeptAway(mode, old(ModeLists()), old(displacedByOrigin)[origin], live, keys, Loss(origin, survivor))
    {
      hide MapsHold, Sane, AllGuarded, Carried, AllOn, MovedTo, Ensured, DroppedIfEmpty;
      survivor := Preferred(keys);
      var record := displacedByOrigin[origin];
      var stillLive := Only(record.ids, live);
      OnlyMembers(record.ids, live);
      OldIds(localWorkspaces, Global(), live, native.next, stillLive);
      if record.dest in keys {
        KeepThere(stillLive, record.dest, live, keys);
      } else if stillLive == [] {
        displacedByOrigin := displacedByOrigin - {origin};
        DropOriginMapping(origin);
        CarriedSame(mode, old(localWorkspaces), old(Global()), localWorkspaces, Global(), live, keys);
      } else {
        var dest := SelectSurvivorKey(keys);
        survivor := dest;
        displacedByOrigin := displacedByOrigin[origin := Record(stillLive, dest)];
        CarriedMove(mode, localWorkspaces, Global(), stillLive, dest, live, keys);
        MovedTogether(localWorkspaces, stillLive, dest);
        MoveLocalIdsTo(stillLive, dest);
      }
    }

    /** Displaced desktops stay with their survivor. */
    method KeepThere(ids: seq<DesktopId>, dest: OutputKey, live: seq<DesktopId>, keys: seq<OutputKey>)
      requires native.Valid() && Maps() && live == native.desktops && mode != Shared
      requires dest in keys && NoDup(ids) && forall id <- ids :: id in live
      modifies `localWorkspaces, `globalAssigned, `globalInverse
      ensures Maps()
      ensures Carried(mode, old(localWorkspaces), old(Global()), localWorkspaces, Global(), live, keys)
      ensures AllOn(ModeLists(), ids, dest) && ModeLists() == Ensured(mode, old(ModeLists()), ids, dest)
      ensures forall id | id !in ids :: PointOf(globalInverse, id) == PointOf(old(globalInverse), id)
    {
      hide MapsHold, Sane, AllOn, MovedTo;
      OldIds(localWorkspaces, Global(), live, native.next, ids);
      CarriedEnsure(mode, localWorkspaces, Global(), ids, dest, live, keys);
      EnsuredOn(localWorkspaces, ids, dest);
      EnsureDisplacedPresent(ids, dest);
      OwnedOn(localWorkspaces, Global(), live, native.next, ids, dest);
      if mode != PerOutputLocal {
        CarriedSame(mode, old(localWorkspaces), old(Global()), localWorkspaces, Global(), live, keys);
      }
    }

    /** Everything known to belong to a lost output: its list, what its windows were on, its view. */
    method Association(origin: OutputKey, prevIds: seq<DesktopId>, live: seq<DesktopId>) returns (ids: seq<DesktopId>)
      ensures ids == Belonging(origin, prevIds, lastVisibleByKey, lastKnownByKey, live)
    {
      ids := Merge([], prevIds);
      if origin in lastKnownByKey {
        ids := Merge(ids, lastKnownByKey[origin]);
      }
      if origin in lastVisibleByKey {
        ids := Merge(ids, [lastVisibleByKey[origin]]);
      }
      ids := Only(ids, live);
    }

    /** An output just lost: all its live desktops move to a survivor and are recorded. */
    method DisplaceLost(origin: OutputKey, prevIds: seq<DesktopId>, live: seq<DesktopId>, keys: seq<OutputKey>, screens: seq<Output>)
      returns (ghost survivor: OutputKey)
      requires native.Valid() && Maps() && Records() && live == native.desktops
      requires keys != [] && origin !in keys && origin !in displacedByOrigin && mode != Shared
      requires mode == PerOutputLocal ==> forall id <- At(localWorkspaces, origin) :: id in prevIds
      modifies `localWorkspaces, `globalAssigned, `globalInverse, `displacedByOrigin, native`views
      ensures native.Valid() && Maps() && Records()
      ensures Carried(mode, old(localWorkspaces), old(Global()), localWorkspaces, Global(), live, keys)
      ensures forall key | key != origin :: RecordOf(displacedByOrigin, key) == RecordOf(old(displacedByOrigin), key)
      // What is known to belong to the output and is live is recorded and on one connected output alone.
      ensures match RecordOf(displacedByOrigin, origin)
              case None => forall id | Claims(prevIds, lastVisibleByKey, lastKnownByKey, map[], origin, id) :: id !in live
              case Some(record) =>
                && record.dest == survivor && AllOn(ModeLists(), record.ids, record.dest)
                && (forall id :: id in record.ids <==> id in live && Claims(prevIds, lastVisibleByKey, lastKnownByKey, map[], origin, id))
      ensures Suits(survivor, keys, Choice(keys))
      ensures native.faithful ==> Followed(Belonging(origin, prevIds, lastVisibleByKey, lastKnownByKey, live), survivor, screens)
      ensures ModeLists() == TakenOff(mode, old(ModeLists()), Belonging(origin, prevIds, lastVisibleByKey, lastKnownByKey, live), Loss(origin, survivor))
    {
      hide MapsHold, Sane, Carried, AllOn, Belonging, DroppedIfEmpty, Ensured, MovedTo;
      survivor := Preferred(keys);
      var ids := Association(origin, prevIds, live);
      BelongingMembers(origin, prevIds, lastVisibleByKey, lastKnownByKey, live);
      OldIds(localWorkspaces, Global(), live, native.next, ids);
      if ids == [] {
        assert forall id :: id !in ids;
        DropOriginMapping(origin);
        CarriedSame(mode, old(localWorkspaces), old(Global()), localWorkspaces, Global(), live, keys);
      } else {
        var dest := SelectSurvivorKey(keys);
        survivor := dest;
        displacedByOrigin := displacedByOrigin[origin := Record(ids, dest)];
        MoveOff(origin, ids, dest, live, keys);
        ShowIfActiveThere(ids, dest, screens);
      }
    }

    /** Move everything live off an output and drop its list. */
    method MoveOff(origin: OutputKey, ids: seq<DesktopId>, dest: OutputKey, live: seq<DesktopId>, keys: seq<OutputKey>)
      requires native.Valid() && Maps() && live == native.desktops && mode != Shared
      requires dest in keys && origin !in keys && NoDup(ids) && forall id <- ids :: id < native.next && id in live
      requires mode == PerOutputLocal ==> forall id <- At(localWorkspaces, origin) :: id in live ==> id in ids
      requires ids != []
      modifies `localWorkspaces, `globalAssigned, `globalInverse
      ensures Maps() && ModeLists() == TakenOff(mode, old(ModeLists()), ids, Loss(origin, dest))
      ensures Carried(mode, old(localWorkspaces), old(Global()), localWorkspaces, Global(), live, keys)
      ensures AllOn(ModeLists(), ids, dest) && (mode == PerOutputLocal ==> origin !in localWorkspaces)
    {
      hide MapsHold, Sane, AllOn, MovedTo, Carried;
      OldIds(localWorkspaces, Global(), live, native.next, ids);
      if mode == PerOutputLocal {
        MovedOn(localWorkspaces, ids, dest, origin);
        CarriedMoveOff(mode, localWorkspaces, Global(), ids, dest, origin, live, keys);
        MoveLocalIdsTo(ids, dest);
        HoldDropped(localWorkspaces, Global(), live, native.next, origin);
        localWorkspaces := localWorkspaces - {origin};
      } else {
        EnsuredGlobally(Global(), live, ids, dest);
        AssignGlobalAll(ids, dest);
        if origin in globalAssigned && globalAssigned[origin] == [] {
          HoldDroppedGlobal(localWorkspaces, Global(), live, native.next, origin);
          globalAssigned := globalAssigned - {origin};
        }
        OwnedOn(localWorkspaces, Global(), live, native.next, ids, dest);
        CarriedSame(mode, old(localWorkspaces), old(Global()), localWorkspaces, Global(), live, keys);
      }
    }

    /** Take what has returned off the record, and the record with the last of it. */
    method RetireRecord(key: OutputKey, returned: seq<DesktopId>)
      requires Records() && key in displacedByOrigin
      modifies `displacedByOrigin
      ensures Records()
      ensures var remaining := Without(old(displacedByOrigin)[key].ids, returned);
              displacedByOrigin == if remaining == [] then old(displacedByOrigin) - {key}
                                   else old(displacedByOrigin)[key := Record(remaining, old(displacedByOrigin)[key].dest)]
    {
      var record := displacedByOrigin[key];
      var remaining := Without(record.ids, returned);
      WithoutMembers(record.ids, returned);
      if remaining == [] {
        displacedByOrigin := displacedByOrigin - {key};
      } else {
        displacedByOrigin := displacedByOrigin[key := Record(remaining, record.dest)];
      }
    }

    /** An output is back: its recorded live desktops return to its list. */
    method ReturnDisplaced(key: OutputKey, live: seq<DesktopId>, screens: seq<Output>)
      requires native.Valid() && Maps() && Records() && live == native.desktops && mode != Shared
      requires key in displacedByOrigin && forall id <- displacedByOrigin[key].ids :: id in live
      modifies `localWorkspaces, `globalAssigned, `globalInverse, `displacedByOrigin, native`views
      ensures native.Valid() && Maps() && Records()
      ensures displacedByOrigin == old(displacedByOrigin) - {key}
      ensures native.faithful ==> Followed(old(displacedByOrigin)[key].ids, key, screens)
      ensures ModeLists() == MovedTo(old(ModeLists()), Arriving(mode, old(ModeLists()), key, old(displacedByOrigin)[key].ids), key)
      ensures mode == PerOutputLocal ==> Global() == old(Global())
      ensures mode == GlobalUnique ==>
                localWorkspaces == old(localWorkspaces) && globalInverse == old(globalInverse) + Pointing(old(displacedByOrigin)[key].ids, key)
    {
      var ids := displacedByOrigin[key].ids;
      var returning := Only(ids, live);
      OnlyMembers(ids, live);
      OldIds(localWorkspaces, Global(), live, native.next, returning);
      if mode == PerOutputLocal {
        MoveLocalIdsTo(returning, key);
      } else {
        AssignedAllIsMove(Global(), live, returning, key);
        AssignGlobalAll(returning, key);
      }
      RetireRecord(key, returning);
      NothingMissing(ids, returning);
      ShowIfActiveThere(returning, key, screens);
    }

    // ---- displacement: one pass ----

    ghost function Here(): Place
      reads `localWorkspaces, `globalAssigned, `globalInverse, `displacedByOrigin
    {
      Place(localWorkspaces, Global(), displacedByOrigin)
    }

    /** The scene is one this adapter found, whatever has been moved since. */
    ghost predicate FoundHere(s: Scene)
      reads `lastVisibleByKey, `lastKnownByKey, native`desktops
    {
      Plausible(s) && s.mode == mode && s.live == native.desktops && s.visible == lastVisibleByKey && s.known == lastKnownByKey
    }

    /** Handle every output that is no longer there, in any order. */
    method HandleLost(lost: set<OutputKey>, prev: Lists, live: seq<DesktopId>, keys: seq<OutputKey>, screens: seq<Output>, ghost s: Scene)
      returns (ghost losses: seq<Loss>)
      requires native.Valid() && Maps() && Records() && live == native.desktops && keys != [] && mode != Shared
      requires FoundHere(s) && s.lists == prev == ModeLists() && s.keys == keys
      requires forall origin <- lost :: origin !in keys && RecordOf(s.records, origin) == RecordOf(displacedByOrigin, origin)
      modifies `localWorkspaces, `globalAssigned, `globalInverse, `displacedByOrigin, native`views
      ensures native.Valid() && Maps() && Records()
      ensures LostSome(s, old(Here()), Here(), lost, losses, Choice(keys))
      ensures (forall origin <- lost :: Waiting(s, origin)) ==> native.views == old(native.views) && displacedByOrigin == old(displacedByOrigin)
    {
      hide Choice, Suits, MapsHold, Sane, RecordsSound, Plausible, Waiting, LostSome, LostOne;
      var rest := lost;
      losses := [];
      ghost var was, choice := Here(), Choice(keys);
      LostNone(s, was, choice);
      assert lost - rest == {};
      while rest != {}
        invariant rest <= lost && native.Valid() && Maps() && Records()
        invariant LostSome(s, was, Here(), lost - rest, losses, choice)
        invariant (forall origin <- lost :: Waiting(s, origin)) ==> native.views == old(native.views) && displacedByOrigin == old(displacedByOrigin)
      {
        var origin :| origin in rest;
        ghost var done, one := lost - rest, Here();
        LostRemain(s, was, one, done, losses, choice, origin);
        rest := rest - {origin};
        assert lost - rest == done + {origin};
        ghost var loss := HandleOneLost(origin, At(prev, origin), live, keys, screens, s);
        LostOneMore(s, was, one, Here(), done, losses, choice, loss);
        losses := losses + [loss];
      }
      assert lost - rest == lost;
    }

    method HandleOneLost(origin: OutputKey, prevIds: seq<DesktopId>, live: seq<DesktopId>, keys: seq<OutputKey>, screens: seq<Output>, ghost s: Scene)
      returns (ghost loss: Loss)
      requires native.Valid() && Maps() && Records() && live == native.desktops
      requires keys != [] && origin !in keys && mode != Shared
      requires mode == PerOutputLocal ==> forall id <- At(localWorkspaces, origin) :: id in prevIds
      requires FoundHere(s) && prevIds == At(s.lists, origin) && s.keys == keys && RecordOf(s.records, origin) == RecordOf(displacedByOrigin, origin)
      modifies `localWorkspaces, `globalAssigned, `globalInverse, `displacedByOrigin, native`views
      ensures native.Valid() && Maps() && Records()
      ensures LostOne(s, old(Here()), Here(), loss) && loss.origin == origin && Suits(loss.survivor, keys, Choice(keys))
      ensures Waiting(s, origin) ==> native.views == old(native.views) && displacedByOrigin == old(displacedByOrigin)
    {
      hide MapsHold, Sane, RecordsSound, KeptAway, TakenOff, Carried, AllOn, Plausible, Hosted;
      ghost var survivor;
      if origin in displacedByOrigin {
        survivor := KeepDisplaced(origin, live, keys);
      } else {
        survivor := DisplaceLost(origin, prevIds, live, keys, screens);
        if origin in displacedByOrigin {
          AllHosted(mode, localWorkspaces, Global(), live, native.next, displacedByOrigin[origin].ids, displacedByOrigin[origin].dest, keys);
        }
      }
      loss := Loss(origin, survivor);
    }

    /** Handle every connected output that has a record. */
    method HandleReturned(keys: seq<OutputKey>, live: seq<DesktopId>, screens: seq<Output>, ghost s: Scene)
      requires native.Valid() && Maps() && Records() && live == native.desktops && NoDup(keys) && mode != Shared
      requires forall key <- displacedByOrigin | key in keys :: forall id <- displacedByOrigin[key].ids :: id in live
      requires s.mode == mode && s.keys == keys && forall key <- keys :: RecordOf(s.records, key) == RecordOf(displacedByOrigin, key)
      modifies `localWorkspaces, `globalAssigned, `globalInverse, `displacedByOrigin, native`views
      ensures native.Valid() && Maps() && Records()
      ensures ModeLists() == AfterReturns(s, old(ModeLists()), |keys|)
      ensures displacedByOrigin == old(displacedByOrigin) - SetOf(keys)
      ensures StillMapped(mode, old(localWorkspaces), old(Global()), localWorkspaces, Global(), keys)
      ensures (forall key <- keys :: key !in old(displacedByOrigin)) ==> native.views == old(native.views)
    {
      hide ModeLists, MapsHold, Sane, RecordsSound, StillMapped, MovedTo, Arriving;
      ghost var records, l0, g0 := displacedByOrigin, localWorkspaces, Global();
      MappedSame(mode, l0, g0, keys);
      for i := 0 to |keys|
        invariant native.Valid() && Maps() && Records()
        invariant ModeLists() == AfterReturns(s, old(ModeLists()), i)
        invariant displacedByOrigin == records - SetOf(keys[..i])
        invariant StillMapped(mode, l0, g0, localWorkspaces, Global(), keys)
        invariant (forall key <- keys :: key !in records) ==> native.views == old(native.views)
      {
        assert keys[..i + 1] == keys[..i] + [keys[i]];
        NotBefore(keys, i);
        assert RecordOf(s.records, keys[i]) == RecordOf(displacedByOrigin, keys[i]);
        ghost var l, g := localWorkspaces, Global();
        if keys[i] in displacedByOrigin {
          ReturnNext(keys[i], live, screens, keys);
          MappedOn(mode, l0, g0, l, g, localWorkspaces, Global(), keys);
        }
      }
      assert keys[..|keys|] == keys;
    }

    /** One return, which unmaps nothing. */
    method ReturnNext(key: OutputKey, live: seq<DesktopId>, screens: seq<Output>, ghost keys: seq<OutputKey>)
      requires native.Valid() && Maps() && Records() && live == native.desktops && mode != Shared && key in keys
      requires key in displacedByOrigin && forall id <- displacedByOrigin[key].ids :: id in live
      modifies `localWorkspaces, `globalAssigned, `globalInverse, `displacedByOrigin, native`views
      ensures native.Valid() && Maps() && Records()
      ensures displacedByOrigin == old(displacedByOrigin) - {key}
      ensures ModeLists() == MovedTo(old(ModeLists()), Arriving(mode, old(ModeLists()), key, old(displacedByOrigin)[key].ids), key)
      ensures StillMapped(mode, old(localWorkspaces), old(Global()), localWorkspaces, Global(), keys)
    {
      hide MapsHold, Sane, MovedTo, Arriving;
      ReturnMaps(mode, localWorkspaces, Global(), native.desktops, native.next, key, displacedByOrigin[key].ids, keys);
      ReturnDisplaced(key, live, screens);
    }

    /** The desktops that belong to some output. */
    ghost function Mapped(): set<DesktopId>
      reads `localWorkspaces, `globalInverse
    {
      if mode == GlobalUnique then globalInverse.Keys else Listed(localWorkspaces)
    }

    /** Note every output's view; outputs that are gone and not displaced are forgotten. */
    method RefreshLastVisible(screens: seq<Output>) returns (ghost seen: seq<(OutputKey, DesktopId)>)
      modifies `lastVisibleByKey
      ensures lastVisibleByKey == Known(old(lastVisibleByKey) + Latest(seen), SetOf(Keys(screens)) + displacedByOrigin.Keys)
      ensures native.faithful ==> seen == Seen(screens)
      // Of the outputs that are gone exactly the displaced ones keep what was noted; a connected one's view is noted.
      ensures GoneKept(old(lastVisibleByKey), lastVisibleByKey, Keys(screens), displacedByOrigin.Keys)
      ensures native.faithful ==> forall output <- screens | output in native.views && KeyOf(outputKeys.slots, outputKeys.byOutput, output).Some? ::
                ViewNoted(lastVisibleByKey, outputKeys.slots, outputKeys.byOutput, native.views, screens, KeyOf(outputKeys.slots, outputKeys.byOutput, output).value)
    {
      hide SeenIn, Latest, GoneKept, ViewNoted;
      seen := [];
      SeenNone(outputKeys.slots, outputKeys.byOutput, native.views, screens, History());
      for i := 0 to |screens|
        invariant lastVisibleByKey == old(lastVisibleByKey) + Latest(seen)
        invariant native.faithful ==> seen == Seen(screens[..i])
        invariant SeenAmong(outputKeys.slots, outputKeys.byOutput, screens, seen)
      {
        SeenNext(outputKeys.slots, outputKeys.byOutput, native.views, screens, i);
        var key := outputKeys.KeyFor(screens[i]);
        var view := native.ReadView(screens[i]);
        if key.Some? && view.Some? {
          LatestNext(seen, key.value, view.value);
          seen := seen + [(key.value, view.value)];
          lastVisibleByKey := lastVisibleByKey[key.value := view.value];
        }
      }
      assert screens[..|screens|] == screens;
      var keys := KeysFor(screens);
      lastVisibleByKey := map key | key in lastVisibleByKey && (key in keys || key in displacedByOrigin) :: lastVisibleByKey[key];
      VisibleNoted(old(lastVisibleByKey), lastVisibleByKey, outputKeys.slots, outputKeys.byOutput, screens, displacedByOrigin.Keys, seen);
      if native.faithful {
        ViewsNoted(old(lastVisibleByKey), lastVisibleByKey, outputKeys.slots, outputKeys.byOutput, native.views, screens, displacedByOrigin.Keys);
      }
    }

    /** Group the desktops of the windows by their connected output; unreadable windows give nothing. */
    method MembershipByKey(keys: seq<OutputKey>) returns (r: Option<map<OutputKey, seq<DesktopId>>>)
      ensures r.Some? ==> forall key <- r.value :: key in keys
      ensures r.Some? ==> forall key, id :: (key in r.value && id in r.value[key]) <==>
                (key in keys && id in MembersOf(outputKeys.slots, outputKeys.byOutput, native.windows, key))
    {
      var windows := native.ReadWindows();
      if windows.None? {
        return None;
      }
      var grouped: map<OutputKey, seq<DesktopId>> := map[];
      for i := 0 to |windows.value|
        invariant forall key <- grouped :: key in keys && NoDup(grouped[key])
        invariant forall key, id :: (key in grouped && id in grouped[key]) <==>
                    (key in keys && id in MembersOf(outputKeys.slots, outputKeys.byOutput, windows.value[..i], key))
      {
        var w := windows.value[i];
        assert windows.value[..i + 1] == windows.value[..i] + [w];
        if w.sticky {
          MembersSkip(outputKeys.slots, outputKeys.byOutput, windows.value[..i], w);
          continue;
        }
        if w.output.None? {
          return None;
        }
        var key := outputKeys.KeyFor(w.output.value);
        MembersStep(outputKeys.slots, outputKeys.byOutput, windows.value[..i], w);
        if key.None? || key.value !in keys {
          continue;
        }
        var bucket := Merge(if key.value in grouped then grouped[key.value] else [], w.desktops);
        grouped := grouped[key.value := bucket];
      }
      assert windows.value[..|windows.value|] == windows.value;
      r := Some(grouped);
    }

    /** Note the desktops of every output's windows, when they can be read; outputs that are gone
        and not displaced are forgotten. */
    method RefreshLastKnown(screens: seq<Output>) returns (ghost grouped: map<OutputKey, seq<DesktopId>>)
      modifies `lastKnownByKey
      ensures lastKnownByKey == Known(old(lastKnownByKey) + grouped, SetOf(Keys(screens)) + displacedByOrigin.Keys)
      ensures GoneKept(old(lastKnownByKey), lastKnownByKey, Keys(screens), displacedByOrigin.Keys)
      ensures forall key, id :: key in grouped && id in grouped[key] ==>
                key in Keys(screens) && id in MembersOf(outputKeys.slots, outputKeys.byOutput, native.windows, key)
    {
      var keys := KeysFor(screens);
      var found := MembershipByKey(keys);
      grouped := map[];
      if found.Some? {
        grouped := found.value;
        lastKnownByKey := lastKnownByKey + found.value;
      }
      lastKnownByKey := map key | key in lastKnownByKey && (key in keys || key in displacedByOrigin) :: lastKnownByKey[key];
    }

    /** What a pass starting now would find, with those outputs connected. */
    ghost function SceneWith(keys: seq<OutputKey>): Scene
      reads `localWorkspaces, `globalAssigned, `sharedIds, `lastVisibleByKey, `lastKnownByKey, `displacedByOrigin, native`desktops
    {
      Scene(mode, ModeLists(), lastVisibleByKey, lastKnownByKey, PrunedRecords(displacedByOrigin, native.desktops), native.desktops, keys)
    }

    /** The output is known from its list, its view or windows last noted, or a live desktop displaced from it. */
    ghost predicate Knows(key: OutputKey)
      reads `localWorkspaces, `globalAssigned, `sharedIds, `lastVisibleByKey, `lastKnownByKey, `displacedByOrigin, native`desktops
    {
      || key in ModeLists() || key in lastVisibleByKey || key in lastKnownByKey
      || (key in displacedByOrigin && exists id <- displacedByOrigin[key].ids :: id in native.desktops)
    }

    lemma KnowsWhatIsLost(keys: seq<OutputKey>)
      ensures forall key :: key in LostIn(SceneWith(keys)) <==> key !in keys && Knows(key)
    {
      forall key | key in displacedByOrigin
        ensures key in PrunedRecords(displacedByOrigin, native.desktops) <==> exists id <- displacedByOrigin[key].ids :: id in native.desktops
      {
        var kept := Only(displacedByOrigin[key].ids, native.desktops);
        OnlyMembers(displacedByOrigin[key].ids, native.desktops);
        assert kept != [] ==> kept[0] in kept;
      }
    }

    lemma ConcludedLosses(losses: seq<Loss>, keys: seq<OutputKey>, s: Scene)
      requires keys != [] && s.keys == keys && Concluded(s, losses)
      ensures native.faithful ==> forall loss <- losses :: loss.survivor == Preferred(keys)
    {
    }

    /** The scene is the present one, the records pruned already. */
    ghost predicate Finds(s: Scene)
      reads `localWorkspaces, `globalAssigned, `sharedIds, `lastVisibleByKey, `lastKnownByKey, `displacedByOrigin, native`desktops
    {
      Plausible(s) && s == Scene(mode, ModeLists(), lastVisibleByKey, lastKnownByKey, displacedByOrigin, native.desktops, s.keys)
    }

    /** The pass handled the lost outputs in some order, and the lists are what that order makes of them:
        a partition with every unshared record home. */
    ghost predicate Concluded(s: Scene, losses: seq<Loss>)
      reads `localWorkspaces, `globalAssigned, `sharedIds, `displacedByOrigin, native`activeScreen, outputKeys`slots, outputKeys`byOutput
    {
      && Plausible(s) && LossesOf(losses, LostIn(s), s.keys, Choice(s.keys)) && (forall loss <- losses :: SentTo(s, displacedByOrigin, loss))
      && ModeLists() == Reconciled(s, losses) && AllBack(s, losses, ModeLists())
    }

    /** With nothing to do no list, view or record is touched. */
    twostate predicate StayedPut(new s: Scene)
      reads `localWorkspaces, `globalAssigned, `sharedIds, `displacedByOrigin, native`views
    {
      AtRest(s) ==> ModeLists() == s.lists && native.views == old(native.views) && displacedByOrigin == s.records
    }

    /** Outputs lost first, then outputs returned. */
    method MoveDisplaced(lost: set<OutputKey>, prev: Lists, live: seq<DesktopId>, keys: seq<OutputKey>, screens: seq<Output>, ghost s: Scene)
      returns (ghost losses: seq<Loss>)
      requires native.Valid() && Maps() && Records() && live == native.desktops && keys != [] && mode != Shared
      requires Finds(s) && lost == LostIn(s) && prev == s.lists && keys == s.keys
      modifies `localWorkspaces, `globalAssigned, `globalInverse, `displacedByOrigin, native`views
      ensures native.Valid() && Maps() && Records()
      ensures forall id <- live | id in old(Mapped()) :: id in Mapped()
      ensures Resettled(s, localWorkspaces, Global(), lost) && Concluded(s, losses) && StayedPut(s)
      ensures forall key <- keys :: key !in displacedByOrigin
    {
      hide MapsHold, Sane, RecordsSound, AllBack, Waiting, LostSome, Reconciled, Plausible, LossesOf, Resettled, StillMapped, AfterReturns, AfterLosses;
      ghost var was := Here();
      losses := HandleLost(lost, prev, live, keys, screens, s);
      ghost var one := Here();
      LostAll(s, was, one, losses, Choice(keys));
      ReturnsCan(s, displacedByOrigin);
      HandleReturned(keys, live, screens, s);
      StillResettled(s, one.local, one.g, localWorkspaces, Global(), lost);
      StaysMapped(mode, one.local, one.g, localWorkspaces, Global(), keys);
      LossesThenReturns(s, losses, Choice(keys), ModeLists());
    }

    /** Views and windows are remembered of connected and displaced outputs only. */
    ghost predicate OnlyConnectedKnown()
      reads `lastVisibleByKey, `lastKnownByKey, `displacedByOrigin, native`screens, outputKeys`slots, outputKeys`byOutput
    {
      forall key <- lastVisibleByKey.Keys + lastKnownByKey.Keys :: key in Keys(native.screens) || key in displacedByOrigin
    }

    /** Move the desktops of lost outputs to a survivor and those of returned outputs back. */
    method ReconcileOutputDisplacement(prev: Lists) returns (ghost report: Report)
      requires native.Valid() && Maps() && Records() && Remembers() && prev == ModeLists()
      modifies `localWorkspaces, `globalAssigned, `globalInverse, `displacedByOrigin, `lastVisibleByKey, `lastKnownByKey,
               `previousByOutput, `historyBaselineByKey, native`views
      ensures native.Valid() && Maps() && Records() && Remembers()
      // Every live mapped desktop stays mapped, by Maps on exactly one list.
      ensures forall id <- native.desktops | id in old(Mapped()) :: id in Mapped()
      ensures report.done ==> mode != Shared && Keys(native.screens) != [] && native.Connected().Some?
      // Every output known but no longer connected is handled; the live desktops of one just lost move to a connected output.
      ensures report.done ==>
                var s := old(SceneWith(Keys(native.screens)));
                && report.lost == LostIn(s) && Resettled(s, localWorkspaces, Global(), report.lost)
                // Exactly the outputs known from lists, views, windows or a live recorded desktop that are not connected are lost.
                && (forall key :: key in report.lost <==> key !in Keys(native.screens) && old(Knows(key)))
                // A newly chosen survivor is the active screen's output while that is connected, else the first.
                && (native.faithful ==> forall loss <- report.losses :: loss.survivor == Preferred(Keys(native.screens)))
                // The lists are what the pass over values makes of them: recorded desktops are back, and no record is left of connected outputs.
                && Concluded(s, report.losses) && StayedPut(s)
                && forall key <- Keys(native.screens) :: key !in displacedByOrigin
      ensures report.done ==> History() == Looked(old(History()), report, Keys(native.screens)) && native.Live().Some?
      ensures report.done && native.faithful ==> report.seenBefore == old(Seen(native.screens)) && report.seenAfter == Seen(native.screens)
      ensures report.done ==> OnlyConnectedKnown()
      ensures report.done <== mode != Shared && native.faithful && native.Live().Some? && native.Connected().Some? && Keys(native.screens) != []
      ensures !report.done ==>
                && History() == old(History()) && native.views == old(native.views)
                && localWorkspaces == old(localWorkspaces) && Global() == old(Global())
    {
      hide MapsHold, Sane, AllGuarded, RecordsSound, Concluded, AtRest, Resettled, Looked, SeenIn, PrunedRecords, ViewHistory.Sound;
      report := Report(false, {}, [], [], []);
      if mode != Shared {
        var screens := native.ReadScreens();
        var live := native.ReadDesktops();
        if screens.Some? && live.Some? {
          KnowsWhatIsLost(Keys(native.screens));
          report := ReconcileConnected(prev, live.value, screens.value);
          if report.done {
            ConcludedLosses(report.losses, Keys(native.screens), old(SceneWith(Keys(native.screens))));
          }
        }
      }
    }

    lemma PlausibleNow(s: Scene)
      requires Maps() && Records() && mode != Shared && s == SceneWith(s.keys) && NoDup(s.keys)
      ensures Plausible(s) && RecordsSound(s.records)
    {
      PrunedRecordsSound(displacedByOrigin, native.desktops);
      ConsistentPartition(Global(), native.desktops);
    }

    method ReconcileConnected(prev: Lists, live: seq<DesktopId>, screens: seq<Output>) returns (ghost report: Report)
      requires native.Valid() && Maps() && Records() && Remembers() && prev == ModeLists() && mode != Shared
      requires live == native.desktops && screens == native.screens
      modifies `localWorkspaces, `globalAssigned, `globalInverse, `displacedByOrigin, `lastVisibleByKey, `lastKnownByKey,
               `previousByOutput, `historyBaselineByKey, native`views
      ensures native.Valid() && Maps() && Records() && Remembers()
      ensures forall id <- live | id in old(Mapped()) :: id in Mapped()
      ensures report.done <==> Keys(screens) != []
      ensures report.done ==>
                var s := old(SceneWith(Keys(screens)));
                && report.lost == LostIn(s) && Resettled(s, localWorkspaces, Global(), report.lost)
                && Concluded(s, report.losses) && StayedPut(s)
                && forall key <- Keys(screens) :: key !in displacedByOrigin
      ensures report.done ==> History() == Looked(old(History()), report, Keys(screens))
      ensures report.done && native.faithful ==> report.seenBefore == old(Seen(screens)) && report.seenAfter == Seen(screens)
      ensures report.done ==> OnlyConnectedKnown()
      ensures !report.done ==>
                && History() == old(History()) && native.views == old(native.views)
                && localWorkspaces == old(localWorkspaces) && Global() == old(Global())
    {
      hide MapsHold, Sane, RecordsSound, Concluded, Resettled, Looked, SeenIn, PrunedRecords, AtRest, ViewHistory.Sound;
      report := Report(false, {}, [], [], []);
      var keys := KeysFor(screens);
      ghost var s := SceneWith(keys);
      PlausibleNow(s);
      displacedByOrigin := PrunedRecords(displacedByOrigin, live);
      if keys != [] {
        var known := prev.Keys + lastVisibleByKey.Keys + lastKnownByKey.Keys + displacedByOrigin.Keys;
        var lost := set key | key in known && key !in keys;
        assert lost == LostIn(s);
        report := MoveAndObserve(lost, prev, live, keys, screens, s);
      }
    }

    /** Outputs lost and returned are handled, and views and windows noted of what is left. */
    method MoveAndNote(lost: set<OutputKey>, prev: Lists, live: seq<DesktopId>, keys: seq<OutputKey>, screens: seq<Output>, ghost s: Scene)
      returns (ghost losses: seq<Loss>)
      requires native.Valid() && Maps() && Records() && live == native.desktops && keys != [] && mode != Shared
      requires screens == native.screens && keys == Keys(screens) && Finds(s) && lost == LostIn(s) && prev == s.lists && keys == s.keys
      modifies `localWorkspaces, `globalAssigned, `globalInverse, `displacedByOrigin, `lastVisibleByKey, `lastKnownByKey, native`views
      ensures native.Valid() && Maps() && Records()
      ensures forall id <- live | id in old(Mapped()) :: id in Mapped()
      ensures Resettled(s, localWorkspaces, Global(), lost) && Concluded(s, losses) && StayedPut(s)
      ensures forall key <- keys :: key !in displacedByOrigin
      ensures OnlyConnectedKnown()
    {
      hide MapsHold, Sane, RecordsSound, Concluded, Resettled, Plausible, AtRest;
      losses := MoveDisplaced(lost, prev, live, keys, screens, s);
      ghost var views := RefreshLastVisible(screens);
      ghost var grouped := RefreshLastKnown(screens);
    }

    /** The same between two observations of the views. */
    method MoveAndObserve(lost: set<OutputKey>, prev: Lists, live: seq<DesktopId>, keys: seq<OutputKey>, screens: seq<Output>, ghost s: Scene)
      returns (ghost report: Report)
      requires native.Valid() && Maps() && Records() && Remembers() && live == native.desktops && keys != [] && mode != Shared
      requires screens == native.screens && keys == Keys(screens) && Finds(s) && lost == LostIn(s) && prev == s.lists && keys == s.keys
      modifies `localWorkspaces, `globalAssigned, `globalInverse, `displacedByOrigin, `lastVisibleByKey, `lastKnownByKey,
               `previousByOutput, `historyBaselineByKey, native`views
      ensures native.Valid() && Maps() && Records() && Remembers()
      ensures forall id <- live | id in old(Mapped()) :: id in Mapped()
      ensures report.done && report.lost == lost
      ensures Resettled(s, localWorkspaces, Global(), lost) && Concluded(s, report.losses) && StayedPut(s)
      ensures forall key <- keys :: key !in displacedByOrigin
      ensures OnlyConnectedKnown()
      ensures History() == Looked(old(History()), report, keys)
      ensures native.faithful ==> report.seenBefore == old(Seen(screens)) && report.seenAfter == Seen(screens)
    {
      hide MapsHold, Sane, RecordsSound, Concluded, Resettled, Plausible, AtRest, ViewHistory.ObservedAll, ViewHistory.Connected, ViewHistory.Sound;
      ghost var seenBefore := RecordHistoryObservations(screens);
      ghost var losses := MoveAndNote(lost, prev, live, keys, screens, s);
      ghost var seenAfter := RecordHistoryObservations(screens);
      report := Report(true, lost, losses, seenBefore, seenAfter);
    }

    // ---- topology signals ----

    /** What every operation keeps: the mapping is a partition, the records are sound, every removal
        was guarded, and no remembered view is the observed one. */
    ghost predicate Valid()
      reads this, native, outputKeys
    {
      native.Valid() && outputKeys.Valid() && Maps() && Records() && RemovalsGuarded() && Remembers()
    }

    /** A previous-view entry resolves: its output is connected, its desktop live and in that
        output's scope, and it differs from the output's recorded current view. */
    ghost predicate Resolves(key: OutputKey)
      requires key in previousByOutput
      reads this, native`desktops, native`screens, outputKeys
    {
      && key in Keys(native.screens) && previousByOutput[key] in native.desktops && previousByOutput[key] in At(ModeLists(), key)
      && key in historyBaselineByKey && previousByOutput[key] != historyBaselineByKey[key]
    }

    method RefreshKeys()
      requires outputKeys.Valid() && native.Valid()
      modifies outputKeys
      ensures outputKeys.Valid()
      ensures native.faithful && native.Connected().Some? ==>
                && old(outputKeys.slots) <= outputKeys.slots
                && KeyedInOrder(outputKeys.slots, outputKeys.byOutput, native.screens, |native.screens|)
    {
      var screens := native.ReadScreens();
      if screens.Some? {
        outputKeys.Rebuild(screens.value);
      }
    }

    /** What a signal's report says: the outputs found lost are the known ones not connected, nothing else
        is tracked afterwards, the views were observed before and after, the keys are up to date; and with
        nothing to move the views are as they were. */
    twostate predicate Reported(new report: Report, new s: Scene)
      reads `lastVisibleByKey, `lastKnownByKey, `displacedByOrigin, native`screens, native`views, native`activeScreen, outputKeys
    {
      && (report.done ==>
            && mode != Shared && 0 < |s.live| <= MAX_DESKTOPS && Keys(native.screens) != [] && native.Connected().Some?
            && report.lost == LostIn(s) && LossesOf(report.losses, LostIn(s), s.keys, Choice(s.keys)) && Plausible(s)
            && OnlyConnectedKnown() && forall key <- Keys(native.screens) :: key !in displacedByOrigin)
      && (report.done && native.faithful ==>
            && report.seenBefore == SeenIn(outputKeys.slots, outputKeys.byOutput, old(native.views), native.screens)
            && report.seenAfter == Seen(native.screens))
      && (native.faithful && native.Connected().Some? ==>
            && old(outputKeys.slots) <= outputKeys.slots
            && KeyedInOrder(outputKeys.slots, outputKeys.byOutput, native.screens, |native.screens|))
      && (report.done && AtRest(s) ==> native.views == old(native.views) && displacedByOrigin == s.records)
    }

    /** What the pass of a signal found: the keys are the ones it refreshed. */
    twostate function Before(): Scene
      reads `localWorkspaces, `globalAssigned, `sharedIds, `lastVisibleByKey, `lastKnownByKey, `displacedByOrigin,
            native`desktops, native`screens, outputKeys`slots, outputKeys`byOutput
    {
      var keys := Keys(native.screens);
      old(SceneWith(keys))
    }

    method RefreshAndReconcile() returns (ghost report: Report)
      requires native.Valid() && outputKeys.Valid() && Maps() && Records() && Remembers()
      modifies outputKeys, `localWorkspaces, `globalAssigned, `globalInverse, `displacedByOrigin, `lastVisibleByKey, `lastKnownByKey,
               `previousByOutput, `historyBaselineByKey, native`views
      ensures native.Valid() && outputKeys.Valid() && Maps() && Records() && Remembers()
      ensures History() == if report.done then Looked(old(History()), report, Keys(native.screens)) else old(History())
      ensures Reported(report, Before()) && (report.done ==> mode != Shared)
      ensures State() == Staged(report, Before(), old(State()))
      ensures report.done <== mode != Shared && native.faithful && native.Live().Some? && native.Connected().Some? && Keys(native.screens) != []
    {
      hide MapsHold, Sane, RecordsSound, KeyedInOrder, Resettled, AtRest, AllBack, LossesOf, Reconciled, LostIn, PrunedRecords, Looked, SeenIn, ViewHistory.Sound;
      RefreshKeys();
      report := ReconcileOutputDisplacement(ModeLists());
    }

    /** After displacement: the shared view, cleanup, and the entries that no longer resolve. */
    method CleanUpAndValidate()
      requires native.Valid() && Maps() && RemovalsGuarded() && Remembers()
      modifies native`desktops, native`next, native`removals, `managed, `localWorkspaces, `localPrimary, `globalAssigned, `globalInverse,
               `globalPrimary, `sharedIds, `previousByOutput, `previousShared, `lastSharedVisible
      ensures native.Valid() && Maps() && RemovalsGuarded() && Logged() && Remembers()
      ensures Tended(mode, Circumstances(), |Kept(mode, Circumstances())|, old(State()), State())
      ensures native.faithful ==> Tidied(old(State()))
      ensures Primary() == old(Primary())
      ensures native.faithful && native.Live().Some? && mode != Shared ==>
                History() == ViewHistory.Validated(old(History()), native.desktops, ModeLists())
    {
      hide MapsHold, Sane, AllGuarded, Tended, Cleaned, Dependable, Tidied, Circumstances, State, Primary, Kept, ViewHistory.Sound, ViewHistory.Validated;
      if mode == Shared {
        ObserveSharedHistory();
      }
      CleanupDesktops();
      ValidatePreviousEntries();
    }

    /** One workspace or window signal: keys, displacement, history, cleanup. */
    method HandleTopologySignal() returns (ghost report: Report)
      requires Valid()
      modifies this, native`desktops, native`next, native`removals, native`views, outputKeys
      ensures Valid() && Logged() && enabled == old(enabled) && retained == old(retained)
      // A signal that is acted on and can be read leaves only entries that resolve.
      ensures report.done && native.faithful && native.Live().Some? ==>
                && (forall key <- previousByOutput :: Resolves(key))
                && History() == ViewHistory.Signalled(old(History()), report.seenBefore, report.seenAfter, SetOf(Keys(native.screens)),
                                                      native.desktops, ModeLists())
      // One that identifies no output drops only entries whose desktop is gone or out of its list.
      ensures !report.done && enabled && mode != Shared && native.faithful && native.Live().Some? ==>
                History() == ViewHistory.Validated(old(History()), native.desktops, ModeLists())
      ensures enabled ==> Reported(report, Before())
      // Desktops and lists are those the displacement pass leaves, tended by cleanup.
      ensures Tended(mode, Circumstances(), |Kept(mode, Circumstances())|, Staged(report, Before(), old(State())), State())
      ensures enabled && native.faithful ==> Tidied(Staged(report, Before(), old(State())))
      ensures Primary() == PrimaryOf(old(ModePrimary()), Keys(native.screens))
      ensures report.done <== enabled && mode != Shared && native.faithful && old(native.Live()).Some? && native.Connected().Some? && Keys(native.screens) != []
      ensures report.done ==> enabled
    {
      hide MapsHold, Sane, AllGuarded, RecordsSound, Tended, Tidied, Looked, Reconciled, Reported, ViewHistory.Signalled, ViewHistory.Validated, ViewHistory.Sound;
      report := Report(false, {}, [], [], []);
      if enabled {
        report := ActOnSignal();
      } else {
        ghost var c, start := Circumstances(), State();
        TendedSame(mode, c, start, start, localWorkspaces, Global());
        TendedMore(mode, c, 0, |Kept(mode, c)|, start, start);
      }
    }

    method ActOnSignal() returns (ghost report: Report)
      requires Valid() && enabled
      modifies outputKeys, native`desktops, native`next, native`views, native`removals, `managed, `localWorkspaces, `localPrimary, `globalAssigned,
               `globalInverse, `globalPrimary, `sharedIds, `displacedByOrigin, `lastVisibleByKey, `lastKnownByKey, `previousByOutput,
               `historyBaselineByKey, `previousShared, `lastSharedVisible
      ensures Valid() && Logged() && Reported(report, Before()) && (report.done ==> mode != Shared)
      ensures report.done && native.faithful && native.Live().Some? ==>
                && (forall key <- previousByOutput :: Resolves(key))
                && History() == ViewHistory.Signalled(old(History()), report.seenBefore, report.seenAfter, SetOf(Keys(native.screens)),
                                                      native.desktops, ModeLists())
      ensures !report.done && mode != Shared && native.faithful && native.Live().Some? ==>
                History() == ViewHistory.Validated(old(History()), native.desktops, ModeLists())
      ensures Tended(mode, Circumstances(), |Kept(mode, Circumstances())|, Staged(report, Before(), old(State())), State())
      ensures native.faithful ==> Tidied(Staged(report, Before(), old(State())))
      ensures Primary() == PrimaryOf(old(ModePrimary()), Keys(native.screens))
      ensures report.done <== mode != Shared && native.faithful && old(native.Live()).Some? && native.Connected().Some? && Keys(native.screens) != []
    {
      hide Circumstances, State, Kept, PrimaryOf, MapsHold, Sane, AllGuarded, RecordsSound, Tended, Tidied, Staged, Looked, Reported, ViewHistory.Signalled, ViewHistory.Validated, ViewHistory.Sound;
      report := RefreshAndReconcile();
      CleanUpAndValidate();
      if report.done && native.faithful && native.Live().Some? {
        LookedResolves(old(History()), report, Keys(native.screens), native.desktops, ModeLists());
      }
    }

    // ---- migration ----

    /** Put the desktop behind the view; when the view is not listed it goes last. */
    method InsertBehind(list: seq<DesktopId>, view: DesktopId, id: DesktopId) returns (r: seq<DesktopId>)
      ensures r == InsertAfter(list, view, id)
    {
      for i := 0 to |list|
        invariant view !in list[..i]
      {
        if list[i] == view {
          InsertAfterSplits(list, view, id, i);
          return list[..i + 1] + [id] + list[i + 1..];
        }
        assert list[..i + 1] == list[..i] + [list[i]];
      }
      assert list[..|list|] == list;
      InsertAfterAbsent(list, view, id);
      r := list + [id];
    }

    /** Keep the first occurrence of each desktop. */
    method FirstOccurrences(s: seq<DesktopId>) returns (r: seq<DesktopId>)
      ensures NoDup(r) && (forall id :: id in r <==> id in s) && (NoDup(s) ==> r == s)
    {
      r := [];
      for i := 0 to |s|
        invariant NoDup(r) && (forall id :: id in r <==> id in s[..i]) && (NoDup(s) ==> r == s[..i])
      {
        assert s[..i + 1] == s[..i] + [s[i]];
        if s[i] !in s[..i] {
          r := r + [s[i]];
        }
      }
      assert s[..|s|] == s;
    }

    /** The desktops of an output that are live, in list order. */
    function Scope(live: seq<DesktopId>, key: OutputKey): seq<DesktopId>
      reads `localWorkspaces, `globalAssigned
    {
      Only(At(if mode == GlobalUnique then globalAssigned else localWorkspaces, key), live)
    }

    /** The list a migration takes from or adds to: in the global mode without what is not live. */
    function MigrationList(live: seq<DesktopId>, key: OutputKey): seq<DesktopId>
      reads `localWorkspaces, `globalAssigned
    {
      Moving(mode, if mode == GlobalUnique then globalAssigned else localWorkspaces, live, key)
    }

    /** Move the desktop between the lists. */
    method MoveBetween(id: DesktopId, source: OutputKey, target: OutputKey, view: DesktopId, live: seq<DesktopId>)
      requires native.Valid() && Maps() && live == native.desktops && mode != Shared && id in live && view != id
      requires source != target && id in MigrationList(live, source) && id !in MigrationList(live, target)
      modifies `localWorkspaces, `globalAssigned, `globalInverse
      ensures Maps() && ModeLists() == Migrated(BaseOf(mode, old(ModeLists()), live, target), id, source, target, view)
    {
      hide MapsHold, Sane;
      if mode == GlobalUnique {
        OldIds(localWorkspaces, Global(), live, native.next, [id]);
        assert id in [id];
        HoldMigratedGlobal(localWorkspaces, Global(), live, native.next, id, target, view);
        MigratedGlobally(Global(), live, id, source, target, view);
        UnassignGlobal(id);
        var next := InsertBehind(Only(At(globalAssigned, target), live), view, id);
        next := FirstOccurrences(next);
        globalAssigned := globalAssigned[target := next];
        globalInverse := globalInverse[id := target];
      } else {
        HoldMigratedLocal(localWorkspaces, Global(), live, native.next, id, source, target, view);
        var targetList := At(localWorkspaces, target);
        localWorkspaces := localWorkspaces[source := Without(At(localWorkspaces, source), [id])];
        var next := InsertBehind(targetList, view, id);
        next := FirstOccurrences(next);
        localWorkspaces := localWorkspaces[target := next];
      }
    }

    /** Forget the migrated desktop's place in the history and in the displaced records. */
    method DropFromRecords(id: DesktopId, source: OutputKey)
      requires Remembers() && Records()
      modifies `previousByOutput, `displacedByOrigin
      ensures Remembers() && Records() && displacedByOrigin == RecordsWithout(old(displacedByOrigin), id)
      ensures previousByOutput == if source in old(previousByOutput) && old(previousByOutput)[source] == id then old(previousByOutput) - {source}
                                  else old(previousByOutput)
    {
      if source in previousByOutput && previousByOutput[source] == id {
        previousByOutput := previousByOutput - {source};
      }
      RecordsWithoutSound(displacedByOrigin, id);
      displacedByOrigin := RecordsWithout(displacedByOrigin, id);
    }

    /** Why a migration may be refused before anything is moved. */
    method CheckMigration(source: Output, target: Output, id: DesktopId, live: seq<DesktopId>)
      returns (r: Option<(OutputKey, OutputKey, DesktopId)>)
      requires native.Live() == Some(live) && mode != Shared
      ensures native.faithful ==> (r.Some? <==> Eligible(source, target, id, ModeLists()))
      ensures r.Some? ==>
                var (from, to, view) := r.value;
                && KeyOf(outputKeys.slots, outputKeys.byOutput, source) == Some(from)
                && KeyOf(outputKeys.slots, outputKeys.byOutput, target) == Some(to)
                && from != to && id in live && id in MigrationList(live, from) && id !in MigrationList(live, to)
                && native.View(target) == Some(view) && view != id
    {
      var from := outputKeys.KeyFor(source);
      var to := outputKeys.KeyFor(target);
      if from.None? || to.None? || from == to {
        return None;
      }
      var found := native.ReadDesktops();
      if found.None? || id !in found.value || id !in MigrationList(live, from.value) {
        return None;
      }
      var view := native.ReadView(target);
      if view.None? || view.value == id || id in MigrationList(live, to.value) {
        return None;
      }
      r := Some((from.value, to.value, view.value));
    }

    /** What the source output shows next: its view while still in scope, else the refill rule. */
    method RefillFor(source: Output, from: OutputKey, id: DesktopId, previous: Option<DesktopId>, live: seq<DesktopId>)
      returns (r: Option<DesktopId>, ghost ring: seq<DesktopId>)
      ensures ring == Without(Scope(live, from), [id])
      ensures Refilled(r, native.View(source), refillRule, previous, ring, native.faithful)
    {
      var remaining := Without(Scope(live, from), [id]);
      ring := remaining;
      var view := native.ReadView(source);
      r := if view.Some? && view.value in remaining then view else Refill(refillRule, previous, remaining);
    }

    /** Every remembered view that is live and on its output's list stays, but for the source's own of the
        desktop that went. */
    twostate predicate StillRemembers(from: OutputKey, id: DesktopId)
      reads `localWorkspaces, `globalAssigned, `sharedIds, `previousByOutput, native`desktops
    {
      forall key :: key in previousByOutput <==>
        && key in old(previousByOutput) && !(key == from && old(previousByOutput)[key] == id)
        && old(previousByOutput)[key] in native.desktops && old(previousByOutput)[key] in At(ModeLists(), key)
    }

    /** The checked migration: lists, records and history, then the refill. */
    method CommitChecked(source: Output, id: DesktopId, from: OutputKey, to: OutputKey, view: DesktopId, live: seq<DesktopId>)
      returns (refill: Option<DesktopId>, ghost ring: seq<DesktopId>)
      requires native.Valid() && Maps() && Records() && Remembers() && live == native.desktops && mode != Shared && id in live && view != id
      requires from != to && id in MigrationList(live, from) && id !in MigrationList(live, to)
      modifies `localWorkspaces, `globalAssigned, `globalInverse, `managed, `previousByOutput, `displacedByOrigin, `previousShared
      ensures Maps() && Records() && Remembers()
      ensures ModeLists() == Migrated(BaseOf(mode, old(ModeLists()), live, to), id, from, to, view)
      ensures displacedByOrigin == RecordsWithout(old(displacedByOrigin), id)
      ensures forall key <- previousByOutput :: key in old(previousByOutput) && previousByOutput[key] == old(previousByOutput)[key]
      ensures from in previousByOutput ==> previousByOutput[from] != id
      ensures native.faithful && native.Live().Some? ==> StillRemembers(from, id)
      ensures ring == Without(Only(At(ModeLists(), from), live), [id])
      ensures Refilled(refill, native.View(source), refillRule, ViewHistory.At(old(previousByOutput), from), ring, native.faithful)
    {
      hide MapsHold, Sane, AllGuarded, RecordsSound, Migrated, Refilled, RecordsWithout, BaseOf, ViewHistory.Sound;
      var previous := ViewHistory.At(previousByOutput, from);
      MoveAndForget(id, from, to, view, live);
      ValidatePreviousEntries();
      refill, ring := RefillFor(source, from, id, previous, live);
    }

    method MoveAndForget(id: DesktopId, from: OutputKey, to: OutputKey, view: DesktopId, live: seq<DesktopId>)
      requires native.Valid() && Maps() && Records() && Remembers() && live == native.desktops && mode != Shared && id in live && view != id
      requires from != to && id in MigrationList(live, from) && id !in MigrationList(live, to)
      modifies `localWorkspaces, `globalAssigned, `globalInverse, `managed, `previousByOutput, `displacedByOrigin
      ensures Maps() && Records() && Remembers()
      ensures ModeLists() == Migrated(BaseOf(mode, old(ModeLists()), live, to), id, from, to, view)
      ensures managed == old(managed) + {id}
      ensures displacedByOrigin == RecordsWithout(old(displacedByOrigin), id)
      ensures previousByOutput == if from in old(previousByOutput) && old(previousByOutput)[from] == id then old(previousByOutput) - {from}
                                  else old(previousByOutput)
    {
      hide MapsHold, Sane, AllGuarded, RecordsSound, ViewHistory.Sound, Migrated, RecordsWithout;
      MoveBetween(id, from, to, view, live);
      managed := managed + {id};
      DropFromRecords(id, from);
    }

    /** The outputs are identified and different, and the desktop can go from the one list to the other,
        behind a view that is not itself. */
    ghost predicate Eligible(source: Output, target: Output, id: DesktopId, lists: Lists)
      reads native`desktops, native`views, outputKeys`slots, outputKeys`byOutput
    {
      var from, to := KeyOf(outputKeys.slots, outputKeys.byOutput, source), KeyOf(outputKeys.slots, outputKeys.byOutput, target);
      && from.Some? && to.Some? && from != to && id in native.desktops
      && id in Moving(mode, lists, native.desktops, from.value) && id !in Moving(mode, lists, native.desktops, to.value)
      && native.View(target).Some? && native.View(target).value != id
    }

    /** What a committed migration did, starting from the lists as they were or as a rebuild makes them:
        the one desktop went from the source's list to the target's, behind the target's view. */
    twostate predicate Migrates(source: Output, target: Output, id: DesktopId, new refill: Option<DesktopId>, new commit: Commit)
      reads `localWorkspaces, `globalAssigned, `sharedIds, `displacedByOrigin, `previousByOutput, `refillRule, native`desktops, native`views,
            outputKeys`slots, outputKeys`byOutput
    {
      var base := BaseOf(mode, commit.lists, native.desktops, commit.to);
      && KeyOf(outputKeys.slots, outputKeys.byOutput, source) == Some(commit.from)
      && KeyOf(outputKeys.slots, outputKeys.byOutput, target) == Some(commit.to)
      && commit.from != commit.to && id in At(base, commit.from) && id !in At(base, commit.to)
      && native.View(target) == Some(commit.view) && commit.view != id
      && ModeLists() == Migrated(base, id, commit.from, commit.to, commit.view)
      // On lists that cover the live desktops nothing else changes.
      && (old(Covers(ModeLists(), native.desktops)) ==> OnlyMigrated(old(ModeLists()), ModeLists(), id, commit.from, commit.to, commit.view))
      // Exactly that desktop leaves the displaced records, and the source's history no longer names it.
      && displacedByOrigin == RecordsWithout(old(displacedByOrigin), id)
      && (forall key <- previousByOutput :: key in old(previousByOutput) && previousByOutput[key] == old(previousByOutput)[key])
      && (commit.from in previousByOutput ==> previousByOutput[commit.from] != id)
      && (native.faithful && native.Live().Some? ==> StillRemembers(commit.from, id))
      // The refill lies in what remains of the source's scope.
      && commit.ring == Without(Only(At(ModeLists(), commit.from), native.desktops), [id])
      && Refilled(refill, native.View(source), refillRule, ViewHistory.At(old(previousByOutput), commit.from), commit.ring, native.faithful)
    }

    /** Move one whole workspace to another output, behind the view there. A refusal may already
        have rebuilt the mapping; a commit moves exactly the one desktop. */
    method CommitWorkspaceMigration(source: Output, target: Output, id: DesktopId)
      returns (r: Option<Option<DesktopId>>, ghost commit: Commit)
      requires Valid()
      modifies `localWorkspaces, `localPrimary, `globalAssigned, `globalInverse, `globalPrimary, `managed, `previousByOutput,
               `displacedByOrigin, `previousShared
      ensures Valid()
      ensures r.None? ==> displacedByOrigin == old(displacedByOrigin) && History() == old(History())
      ensures r.Some? ==> Migrates(source, target, id, r.value, commit)
      ensures Refreshed(mode, old(ModeLists()), native.desktops, old(Held(native.screens)), Chosen(), commit.lists)
      ensures enabled && mode != Shared && native.faithful && native.Live().Some? ==>
                && (r.Some? <==> Eligible(source, target, id, commit.lists))
                && (native.Connected().Some? && Keys(native.screens) != [] ==>
                      Chosen().Some? && commit.lists == Renewed(mode, old(ModeLists()), native.desktops, old(Held(native.screens)), Chosen().value))
    {
      hide MapsHold, Sane, AllGuarded, RecordsSound, Renewed, Covers, Migrated, OnlyMigrated, Refilled, RecordsWithout, BaseOf, ViewHistory.Sound;
      r, commit := None, Commit("", "", 0, ModeLists(), []);
      if !enabled || mode == Shared {
        return;
      }
      var live := native.ReadDesktops();
      if live.Some? {
        r, commit := CommitLive(source, target, id, live.value);
      }
    }

    method CommitLive(source: Output, target: Output, id: DesktopId, live: seq<DesktopId>)
      returns (r: Option<Option<DesktopId>>, ghost commit: Commit)
      requires native.Valid() && Maps() && Records() && Remembers() && native.Live() == Some(live) && mode != Shared
      modifies `localWorkspaces, `localPrimary, `globalAssigned, `globalInverse, `globalPrimary, `managed, `previousByOutput,
               `displacedByOrigin, `previousShared
      ensures Maps() && Records() && Remembers()
      ensures r.None? ==> displacedByOrigin == old(displacedByOrigin) && History() == old(History())
      ensures r.Some? ==> Migrates(source, target, id, r.value, commit)
      ensures Refreshed(mode, old(ModeLists()), native.desktops, old(Held(native.screens)), Chosen(), commit.lists)
      ensures native.faithful ==>
                && (r.Some? <==> Eligible(source, target, id, commit.lists))
                && (native.Connected().Some? && Keys(native.screens) != [] ==>
                      Chosen().Some? && commit.lists == Renewed(mode, old(ModeLists()), native.desktops, old(Held(native.screens)), Chosen().value))
    {
      hide MapsHold, Sane, RecordsSound, Refreshed, Renewed, Covers, Migrated, OnlyMigrated, Refilled, RecordsWithout, BaseOf, ViewHistory.Sound;
      ghost var was, held := ModeLists(), Held(native.screens);
      ghost var done := RebuildMapping(live);
      var checked := CheckMigration(source, target, id, live);
      ghost var lists := ModeLists();
      r, commit := None, Commit("", "", 0, lists, []);
      if checked.Some? {
        var (from, to, view) := checked.value;
        ghost var ring;
        var refill;
        refill, ring := CommitChecked(source, id, from, to, view, live);
        commit := Commit(from, to, view, lists, ring);
        CheckedListed(mode, lists, live, id, commit);
        MigratedOnly(mode, was, live, held, Chosen(), commit, ModeLists(), id);
        r := Some(refill);
      }
    }

    /** The primary output the per-output mode has chosen. */
    ghost function Chosen(): Option<OutputKey>
      reads `localPrimary, `globalPrimary
    {
      if mode == GlobalUnique then globalPrimary else localPrimary
    }

    /** Rebuild the per-output mapping of the mode. */
    method RebuildMapping(live: seq<DesktopId>) returns (ghost done: bool)
      requires Maps() && live == native.desktops && native.Live() == Some(live) && mode != Shared
      modifies `localWorkspaces, `localPrimary, `globalAssigned, `globalInverse, `globalPrimary, `managed
      ensures Maps() && Refreshed(mode, old(ModeLists()), live, Held(native.screens), Chosen(), ModeLists())
      ensures done ==> Chosen().Some? && ModeLists() == Renewed(mode, old(ModeLists()), live, Held(native.screens), Chosen().value) && Covers(ModeLists(), live)
      ensures done <== native.faithful && native.Connected().Some? && Keys(native.screens) != []
      ensures !done ==> ModeLists() == old(ModeLists()) && managed == old(managed)
    {
      hide MapsHold, Covers;
      if mode == GlobalUnique {
        done := RebuildGlobalMapping(live);
      } else {
        done := RebuildLocalMapping(Some(live));
      }
    }

    // ---- selection ----

    method FindLive(id: DesktopId) returns (found: bool)
      ensures found ==> id in native.desktops
      ensures native.faithful && native.Live().Some? ==> (found <==> id in native.desktops)
    {
      var live := native.ReadDesktops();
      found := live.Some? && id in live.value;
    }

    method SynchronizeShared(id: DesktopId)
      requires native.Valid() && id in native.desktops
      modifies native`views, native`sharedView
      ensures native.Valid()
      ensures native.faithful ==> ShowsEverywhere(id)
    {
      hide Sane;
      HeldBelow(native.desktops, native.screens, native.views, native.sharedView, native.windows, native.next, id);
      var screens := native.ReadScreens();
      if screens.None? {
        var ok := native.ShowShared(id);
        return;
      }
      for i := 0 to |screens.value|
        invariant native.Valid()
        invariant native.faithful ==> forall j | 0 <= j < i :: native.View(screens.value[j]) == Some(id)
      {
        var ok := native.ShowOn(id, screens.value[i]);
      }
    }

    /** Every connected output shows the desktop; without outputs it is the shared view. */
    ghost predicate ShowsEverywhere(id: DesktopId)
      reads native`screens, native`views, native`sharedView
    {
      if native.Connected().Some? then forall output <- native.screens :: native.View(output) == Some(id) else native.sharedView == Some(id)
    }

    /** When another output already shows the desktop, the two outputs trade views and desktops. */
    method SwapGlobalIfVisibleElsewhere(id: DesktopId, active: Output) returns (ghost other: Option<Output>)
      requires native.Valid() && Maps() && id in native.desktops
      modifies `globalAssigned, `globalInverse, native`views
      ensures native.Valid() && Maps()
      ensures other.None? ==> Global() == old(Global()) && native.views == old(native.views)
      ensures other.Some? ==> other.value in native.screens && Trades(old(Global()), old(native.views), id, active, other.value)
      ensures native.faithful && native.Connected().Some? ==>
                forall output <- native.screens | CanTrade(old(native.views), id, active, output) :: other.Some?
    {
      hide MapsHold, Sane;
      other := None;
      var screens := native.ReadScreens();
      if screens.None? {
        return;
      }
      for i := 0 to |screens.value|
        invariant native.Valid() && Maps() && Global() == old(Global()) && native.views == old(native.views)
        invariant native.faithful ==> forall j | 0 <= j < i :: !CanTrade(native.views, id, active, screens.value[j])
      {
        var candidate := screens.value[i];
        var view := native.ReadView(candidate);
        if candidate != active && view == Some(id) {
          var traded := TradeWith(id, active, candidate);
          other := if traded then Some(candidate) else None;
          return;
        }
      }
    }

    /** The output shows the desktop and could take the active output's view for it. */
    ghost predicate CanTrade(views: map<Output, DesktopId>, id: DesktopId, active: Output, output: Output)
      reads native`screens, outputKeys`slots, outputKeys`byOutput
    {
      && output != active && output in views && views[output] == id && active in views && views[active] != id
      && KeyOf(outputKeys.slots, outputKeys.byOutput, active).Some?
      && forall shown <- native.screens | shown in views && views[shown] == id && shown != active ::
           KeyOf(outputKeys.slots, outputKeys.byOutput, shown).Some?
    }

    /** The two outputs have traded desktops in the mapping and, when calls succeed, in view. */
    ghost predicate Trades(g: Mapping, views: map<Output, DesktopId>, id: DesktopId, active: Output, other: Output)
      reads `globalAssigned, `globalInverse, native`views, outputKeys`slots, outputKeys`byOutput
    {
      var mine, theirs := KeyOf(outputKeys.slots, outputKeys.byOutput, active), KeyOf(outputKeys.slots, outputKeys.byOutput, other);
      && other != active && other in views && views[other] == id && active in views && mine.Some? && theirs.Some?
      && Global() == Assigned(Assigned(g, id, mine.value), views[active], theirs.value)
      && (native.faithful ==> native.views == views[active := id][other := views[active]])
    }

    method TradeWith(id: DesktopId, active: Output, other: Output) returns (traded: bool)
      requires native.Valid() && Maps() && id in native.desktops && other != active && native.View(other) == Some(id)
      modifies `globalAssigned, `globalInverse, native`views
      ensures native.Valid() && Maps()
      ensures !traded ==> Global() == old(Global()) && native.views == old(native.views)
      ensures traded ==> Trades(old(Global()), old(native.views), id, active, other)
      ensures native.faithful && active in old(native.views) && old(native.views)[active] != id ==>
                (traded <==> KeyOf(outputKeys.slots, outputKeys.byOutput, active).Some? && KeyOf(outputKeys.slots, outputKeys.byOutput, other).Some?)
    {
      hide MapsHold, Sane;
      var mine := native.ReadView(active);
      var activeKey := outputKeys.KeyFor(active);
      var otherKey := outputKeys.KeyFor(other);
      traded := mine.Some? && mine.value != id && activeKey.Some? && otherKey.Some?;
      if !traded {
        return;
      }
      HeldBelow(native.desktops, native.screens, native.views, native.sharedView, native.windows, native.next, id);
      AssignOne(id, activeKey.value);
      AssignOne(mine.value, otherKey.value);
      var first := native.ShowOn(id, active);
      if first {
        var second := native.ShowOn(mine.value, other);
      }
    }

    method AssignOne(id: DesktopId, key: OutputKey)
      requires Maps() && id < native.next
      modifies `globalAssigned, `globalInverse
      ensures Maps() && Global() == Assigned(old(Global()), id, key)
    {
      hide MapsHold;
      AssignNext(Global(), [], id, key);
      AssignGlobalAll([id], key);
    }

    /** The output has traded with one that showed the desktop. */
    twostate predicate Traded(id: DesktopId, active: Output)
      reads `globalAssigned, `globalInverse, native`views, native`screens, outputKeys`slots, outputKeys`byOutput
    {
      exists other <- native.screens :: Trades(old(Global()), old(native.views), id, active, other)
    }

    /** The mapping is as it was or the output has traded; and it has traded when readings can be relied on
        and some other output could. */
    twostate predicate TradedIfShown(id: DesktopId, active: Output)
      reads `globalAssigned, `globalInverse, native`views, native`screens, outputKeys`slots, outputKeys`byOutput
    {
      && (Global() == old(Global()) || Traded(id, active))
      && (native.faithful && native.Connected().Some? ==>
            forall output <- native.screens | CanTrade(old(native.views), id, active, output) :: Traded(id, active))
    }

    /** Show the desktop on the output, trading views first in the global mode. */
    method ShowScoped(id: DesktopId, output: Output) returns (ok: bool)
      requires native.Valid() && Maps() && id in native.desktops
      modifies `globalAssigned, `globalInverse, native`views
      ensures native.Valid() && Maps()
      ensures ok ==> native.View(output) == Some(id)
      ensures native.faithful ==> ok
      ensures native.faithful && mode != GlobalUnique ==> native.views == old(native.views)[output := id]
      ensures mode == GlobalUnique && native.faithful ==> TradedIfShown(id, output)
    {
      hide MapsHold, Sane;
      HeldBelow(native.desktops, native.screens, native.views, native.sharedView, native.windows, native.next, id);
      if mode == GlobalUnique {
        ghost var other := SwapGlobalIfVisibleElsewhere(id, output);
      }
      ok := native.ShowOn(id, output);
    }

    /** The desktops a position counts along on the active output. */
    ghost function ActiveScope(live: seq<DesktopId>): seq<DesktopId>
      reads `localWorkspaces, `globalAssigned, native`activeOutput, outputKeys`slots, outputKeys`byOutput
    {
      if native.activeOutput.None? || KeyOf(outputKeys.slots, outputKeys.byOutput, native.activeOutput.value).None? then []
      else MigrationList(live, KeyOf(outputKeys.slots, outputKeys.byOutput, native.activeOutput.value).value)
    }

    /** The position's desktop is in view on the active output; only the local mode, when it reads no
        active output, shows the desktop of that number instead. */
    ghost predicate Selected(index: int, scope: seq<DesktopId>, live: seq<DesktopId>)
      requires index >= 1
      reads native`activeOutput, native`views, native`sharedView
    {
      || (native.activeOutput.Some? && index <= |scope| && native.View(native.activeOutput.value) == Some(scope[index - 1]))
      || (mode == PerOutputLocal && index <= |live| && native.sharedView == Some(live[index - 1]))
    }

    /** Select an existing position of the active output; an absent one creates nothing. */
    method SelectLogical(index: int) returns (ok: bool, ghost scope: seq<DesktopId>)
      requires Valid()
      modifies `localWorkspaces, `localPrimary, `globalAssigned, `globalInverse, `sharedIds, `managed, native`views, native`sharedView
      ensures Valid()
      ensures ok ==> 1 <= index <= 9 && (mode != Shared ==> Selected(index, scope, native.desktops))
      ensures mode == PerOutputLocal ==> scope == ActiveScope(native.desktops)
      ensures mode == GlobalUnique ==> scope == old(ActiveScope(native.desktops))
      // In the global mode a desktop that another output shows is traded for the active output's view.
      ensures ok && mode == GlobalUnique && native.faithful && native.activeOutput.Some? ==>
                index <= |scope| && TradedIfShown(scope[index - 1], native.activeOutput.value)
      ensures native.faithful && enabled && 1 <= index <= 9 && native.Live().Some? ==>
                if mode == Shared then ok == (index <= |native.desktops|) && (ok ==> ShowsEverywhere(native.desktops[index - 1]))
                else native.activeOutput.Some? ==> ok == (index <= |scope| && scope[index - 1] in native.desktops)
    {
      hide MapsHold, Sane, AllGuarded, RecordsSound, ViewHistory.Sound, Selected, ActiveScope, ShowsEverywhere;
      ok, scope := false, ActiveScope(native.desktops);
      if enabled && 1 <= index <= 9 {
        var live := native.ReadDesktops();
        if live.Some? {
          if mode == Shared {
            ok := SelectShared(index, live.value);
          } else {
            ok, scope := SelectPosition(index, live.value);
          }
        }
      }
    }

    /** A position of the active output, the local lists brought up to date first. */
    method SelectPosition(index: int, live: seq<DesktopId>) returns (ok: bool, ghost scope: seq<DesktopId>)
      requires native.Valid() && Maps() && native.Live() == Some(live) && index >= 1 && mode != Shared
      modifies `localWorkspaces, `localPrimary, `globalAssigned, `globalInverse, `managed, native`views, native`sharedView
      ensures native.Valid() && Maps()
      ensures ok ==> Selected(index, scope, live)
      ensures mode == PerOutputLocal ==> scope == ActiveScope(live)
      ensures mode == GlobalUnique ==> scope == old(ActiveScope(live))
      ensures ok && mode == GlobalUnique && native.faithful && native.activeOutput.Some? ==> TradedIfShown(scope[index - 1], native.activeOutput.value)
      ensures native.faithful && native.activeOutput.Some? ==> ok == (index <= |scope| && scope[index - 1] in live)
    {
      hide MapsHold, Sane, Covers, Rebuilt;
      if mode == PerOutputLocal {
        ghost var done := RebuildLocalMapping(Some(live));
      }
      scope := ActiveScope(live);
      ok := SelectScoped(index, live);
    }

    method SelectShared(index: int, live: seq<DesktopId>) returns (ok: bool)
      requires native.Valid() && live == native.desktops && index >= 1
      modifies `sharedIds, `managed, native`views, native`sharedView
      ensures native.Valid()
      ensures ok == (index <= |live|)
      ensures ok && native.faithful ==> ShowsEverywhere(live[index - 1])
    {
      hide Sane;
      var done := RebuildSharedMapping(Some(live));
      ok := index <= |live|;
      if ok {
        SynchronizeShared(live[index - 1]);
      }
    }

    /** The index-th desktop of the active output's scope; without an active output the local mode
        falls back on the index-th of all. */
    method SelectScoped(index: int, live: seq<DesktopId>) returns (ok: bool)
      requires native.Valid() && Maps() && live == native.desktops && native.Live() == Some(live) && index >= 1 && mode != Shared
      modifies `globalAssigned, `globalInverse, native`views, native`sharedView
      ensures native.Valid() && Maps()
      ensures ok ==> Selected(index, old(ActiveScope(live)), live)
      ensures ok && mode == GlobalUnique && native.faithful && native.activeOutput.Some? ==>
                TradedIfShown(old(ActiveScope(live))[index - 1], native.activeOutput.value)
      ensures native.faithful && native.activeOutput.Some? ==>
                var scope := old(ActiveScope(live)); ok == (index <= |scope| && scope[index - 1] in live)
    {
      hide MapsHold, Sane;
      ok := false;
      var output := native.ReadActiveOutput();
      if output.None? {
        if mode == PerOutputLocal && index <= |live| {
          HeldBelow(native.desktops, native.screens, native.views, native.sharedView, native.windows, native.next, live[index - 1]);
          ok := native.ShowShared(live[index - 1]);
        }
        return;
      }
      var key := outputKeys.KeyFor(output.value);
      if key.None? || index > |MigrationList(live, key.value)| {
        return;
      }
      var id := MigrationList(live, key.value)[index - 1];
      var found := mode == GlobalUnique;
      if found {
        OnlyMembers(At(globalAssigned, key.value), live);
        assert id in Only(At(globalAssigned, key.value), live);
      } else {
        found := FindLive(id);
      }
      if found {
        ok := ShowScoped(id, output.value);
      }
    }

    /** The ring is the output's scope in the lists as they were or as a rebuild makes them. */
    ghost predicate Along(was: Lists, output: Output, step: RingStep)
      reads `localWorkspaces, `localPrimary, `globalPrimary, `displacedByOrigin, native`desktops, native`screens, outputKeys`slots, outputKeys`byOutput
    {
      && KeyOf(outputKeys.slots, outputKeys.byOutput, output) == Some(step.key)
      && Refreshed(mode, was, native.desktops, Held(native.screens), Chosen(), step.lists)
      && (native.faithful && native.Connected().Some? && Keys(native.screens) != [] ==>
            Chosen().Some? && step.lists == Renewed(mode, was, native.desktops, Held(native.screens), Chosen().value))
      && (mode == PerOutputLocal ==> step.lists == localWorkspaces)
      && step.ring == Only(At(step.lists, step.key), native.desktops)
    }

    /** Step along the active output's ring of desktops, wrapping at both ends. */
    method SelectRelative(delta: int) returns (ok: bool, ghost step: RingStep)
      requires Valid()
      modifies `localWorkspaces, `localPrimary, `globalAssigned, `globalInverse, `globalPrimary, `sharedIds, `managed,
               native`views, native`sharedView
      ensures Valid()
      ensures ok && mode != Shared ==>
                && (delta == 1 || delta == -1) && native.activeOutput.Some?
                && Along(old(ModeLists()), native.activeOutput.value, step)
                && Stepped(step, delta, old(native.View(native.activeOutput.value)), native.View(native.activeOutput.value))
      ensures mode != Shared && enabled && (delta == 1 || delta == -1) && native.faithful && native.Live().Some? && native.activeOutput.Some? ==>
                && (KeyOf(outputKeys.slots, outputKeys.byOutput, native.activeOutput.value).Some? ==> Along(old(ModeLists()), native.activeOutput.value, step))
                && (ok <==> KeyOf(outputKeys.slots, outputKeys.byOutput, native.activeOutput.value).Some? &&
                            InView(old(native.View(native.activeOutput.value)), step.ring))
      ensures ok && mode == Shared && native.faithful ==>
                && (delta == 1 || delta == -1) && step.ring == native.desktops && step.at < |step.ring| && old(native.sharedView) == Some(step.ring[step.at])
                && (var next := step.ring[Ring.Step(|step.ring|, step.at, delta)]; next == step.ring[step.at] || ShowsEverywhere(next))
    {
      hide MapsHold, Sane, AllGuarded, RecordsSound, ViewHistory.Sound, Along, Stepped, ShowsEverywhere;
      ok, step := false, RingStep(map[], "", [], 0);
      if enabled && (delta == -1 || delta == 1) {
        var live := native.ReadDesktops();
        if live.Some? {
          if mode == Shared {
            ghost var at;
            ok, at := StepShared(delta, live.value);
            step := RingStep(map[], SHARED, live.value, at);
          } else {
            var output := native.ReadActiveOutput();
            if output.Some? {
              ok, step := StepScoped(output.value, delta, live.value);
            }
          }
        }
      }
    }

    method StepScoped(output: Output, delta: int, live: seq<DesktopId>) returns (ok: bool, ghost step: RingStep)
      requires native.Valid() && Maps() && (delta == 1 || delta == -1) && native.Live() == Some(live) && mode != Shared
      modifies `localWorkspaces, `localPrimary, `globalAssigned, `globalInverse, `globalPrimary, `managed, native`views
      ensures native.Valid() && Maps()
      ensures KeyOf(outputKeys.slots, outputKeys.byOutput, output).Some? ==> Along(old(ModeLists()), output, step)
      ensures ok ==>
                && KeyOf(outputKeys.slots, outputKeys.byOutput, output).Some?
                && Stepped(step, delta, old(native.View(output)), native.View(output))
      ensures native.faithful ==>
                (ok <==> KeyOf(outputKeys.slots, outputKeys.byOutput, output).Some? && InView(old(native.View(output)), step.ring))
    {
      hide MapsHold, Sane, Refreshed, Renewed, Covers;
      ok, step := false, RingStep(map[], "", [], 0);
      ghost var done := RebuildMapping(live);
      var key := outputKeys.KeyFor(output);
      if key.Some? {
        OnlyMembers(At(ModeLists(), key.value), live);
        ghost var lists, at := ModeLists(), 0;
        ghost var ring := Scope(live, key.value);
        ok, at := StepOn(output, delta, Scope(live, key.value), live);
        step := RingStep(lists, key.value, ring, at);
      }
    }

    method IndexOf(list: seq<DesktopId>, id: DesktopId) returns (r: Option<nat>)
      ensures r.None? ==> id !in list
      ensures r.Some? ==> r.value < |list| && list[r.value] == id && id !in list[..r.value]
    {
      for i := 0 to |list|
        invariant id !in list[..i]
      {
        if list[i] == id {
          return Some(i);
        }
        assert list[..i + 1] == list[..i] + [list[i]];
      }
      assert list[..|list|] == list;
      r := None;
    }

    method StepOn(output: Output, delta: int, scope: seq<DesktopId>, live: seq<DesktopId>) returns (ok: bool, ghost at: nat)
      requires native.Valid() && Maps() && (delta == 1 || delta == -1) && native.Live() == Some(live) && forall id <- scope :: id in live
      modifies `globalAssigned, `globalInverse, native`views
      ensures native.Valid() && Maps()
      ensures ok ==> Stepped(RingStep(map[], "", scope, at), delta, old(native.View(output)), native.View(output))
      ensures native.faithful ==> (ok <==> InView(old(native.View(output)), scope))
    {
      hide MapsHold, Sane;
      ok, at := false, 0;
      var view := native.ReadView(output);
      if scope == [] || view.None? {
        return;
      }
      var index := IndexOf(scope, view.value);
      if index.None? {
        return;
      }
      at := index.value;
      var next := scope[Ring.Step(|scope|, index.value, delta)];
      if next == view.value {
        ok := true;
        return;
      }
      assert next in scope;
      var found := FindLive(next);
      if found {
        ok := ShowScoped(next, output);
      }
    }

    method StepShared(delta: int, live: seq<DesktopId>) returns (ok: bool, ghost at: nat)
      requires native.Valid() && (delta == 1 || delta == -1) && live == native.desktops && live != [] && mode == Shared
      modifies `sharedIds, `managed, native`views, native`sharedView
      ensures native.Valid()
      ensures ok ==> at < |live| && old(native.sharedView) == Some(live[at])
      ensures ok && native.faithful ==>
                var next := live[Ring.Step(|live|, at, delta)]; next == live[at] || ShowsEverywhere(next)
    {
      hide Sane;
      ok, at := false, 0;
      var done := RebuildSharedMapping(Some(live));
      var view := native.ReadSharedView();
      if view.None? {
        return;
      }
      var index := IndexOf(live, view.value);
      if index.None? {
        return;
      }
      at := index.value;
      var next := live[Ring.Step(|live|, index.value, delta)];
      ok := true;
      if next == view.value {
        return;
      }
      ok := FindLive(next);
      if ok {
        SynchronizeShared(next);
      }
    }

    /** The last desktop of the active output's list when it is empty. */
    method ResolveTrailing(list: seq<DesktopId>) returns (r: Option<DesktopId>)
      ensures r.Some? ==> r.value in native.desktops && Last(list) == r && r.value !in OccupiedBy(native.windows)
      ensures native.faithful && native.Live().Some? && Decodable(native.windows) && (forall id <- list :: id in native.desktops) ==>
                (r.Some? <==> SpareLast(OccupiedBy(native.windows), list))
    {
      r := None;
      if list == [] {
        return;
      }
      var occupied := OccupiedIds();
      if occupied.None? || list[|list| - 1] in occupied.value {
        return;
      }
      var found := FindLive(list[|list| - 1]);
      if found {
        r := Some(list[|list| - 1]);
      }
    }

    /** Reuse the trailing empty desktop or create one, then show it. */
    method SelectTrailingOrCreate() returns (ok: bool, ghost id: DesktopId)
      requires Valid()
      modifies `localWorkspaces, `localPrimary, `globalAssigned, `globalInverse, `globalPrimary, `sharedIds, `managed,
               native`desktops, native`next, native`views, native`sharedView
      ensures Valid()
      // What comes into view is an empty desktop of the active output's own list.
      ensures ok ==> id in native.desktops && id !in OccupiedBy(native.windows)
      ensures ok && mode != Shared ==>
                native.activeOutput.Some? && native.View(native.activeOutput.value) == Some(id) && id in At(ModeLists(), RecallKey(native.activeOutput.value))
      // It is the last of that list, created only when the list does not end in an empty one.
      ensures enabled && mode != Shared && native.faithful && old(native.Live()).Some? && native.Connected().Some? && Keys(native.screens) != []
              && Decodable(native.windows) && native.activeOutput.Some?
              && KeyOf(outputKeys.slots, outputKeys.byOutput, native.activeOutput.value).Some? ==>
                (ok ==> Trails(RecallKey(native.activeOutput.value), id)) && (|old(native.desktops)| < MAX_DESKTOPS ==> ok)
      ensures ok && mode == Shared && native.faithful ==> ShowsEverywhere(id)
    {
      hide MapsHold, Sane, AllGuarded, RecordsSound, ViewHistory.Sound, ShowsEverywhere, OccupiedBy;
      ok, id := false, 0;
      if enabled {
        var live := native.ReadDesktops();
        if mode == Shared {
          ok, id := SelectSharedTrailing(live);
        } else {
          var output := native.ReadActiveOutput();
          if output.Some? {
            ok, id := TrailingOn(output.value, live);
          }
        }
      }
    }

    /** The trailing empty desktop of the output, the lists brought up to date first. */
    method TrailingOn(output: Output, live: Option<seq<DesktopId>>) returns (ok: bool, ghost id: DesktopId)
      requires native.Valid() && Maps() && mode != Shared && (live.Some? ==> live == native.Live())
      modifies `localWorkspaces, `localPrimary, `globalAssigned, `globalInverse, `globalPrimary, `sharedIds, `managed,
               native`desktops, native`next, native`views
      ensures native.Valid() && Maps()
      ensures ok ==>
                && native.View(output) == Some(id) && id in native.desktops && id !in OccupiedBy(native.windows)
                && id in At(ModeLists(), RecallKey(output))
      ensures native.faithful && live.Some? && native.Connected().Some? && Keys(native.screens) != [] && Decodable(native.windows)
              && KeyOf(outputKeys.slots, outputKeys.byOutput, output).Some? ==>
                (ok ==> Trails(RecallKey(output), id)) && (|old(native.desktops)| < MAX_DESKTOPS ==> ok)
    {
      hide MapsHold, Sane, Refreshed, Renewed, Covers, OccupiedBy;
      ok, id := false, 0;
      if live.Some? {
        ghost var done := RebuildMapping(live.value);
      }
      var key := outputKeys.KeyFor(output);
      if key.Some? {
        ok, id := ShowTrailing(key.value, output);
      }
    }

    /** The desktop is the last of the list; when it is new, it is the only one, and the list did not end in an
        empty desktop before. */
    twostate predicate Trails(key: OutputKey, id: DesktopId)
      reads `localWorkspaces, `globalAssigned, `sharedIds, native`desktops, native`windows
    {
      var list := At(ModeLists(), key);
      && list != [] && list[|list| - 1] == id
      && (if id in old(native.desktops) then native.desktops == old(native.desktops)
          else native.desktops == old(native.desktops) + [id] && !SpareLast(OccupiedBy(native.windows), list[..|list| - 1]))
    }

    lemma ListedLive(key: OutputKey)
      ensures Covers(ModeLists(), native.desktops) ==>
                (forall id <- At(ModeLists(), key) :: id in native.desktops) && Only(At(ModeLists(), key), native.desktops) == At(ModeLists(), key)
    {
      if Covers(ModeLists(), native.desktops) {
        assert forall id <- At(ModeLists(), key) :: id in Listed(ModeLists());
        OnlyMembers(At(ModeLists(), key), native.desktops);
      }
    }

    /** The trailing empty desktop of the output, created when missing, comes into view. */
    method ShowTrailing(key: OutputKey, output: Output) returns (ok: bool, ghost id: DesktopId)
      requires native.Valid() && Maps() && mode != Shared
      modifies `localWorkspaces, `globalAssigned, `globalInverse, `sharedIds, `managed, native`desktops, native`next, native`views
      ensures native.Valid() && Maps()
      ensures ok ==> native.View(output) == Some(id) && id in native.desktops && id in At(ModeLists(), key) && id !in OccupiedBy(native.windows)
      ensures native.faithful && old(native.Live()).Some? && Decodable(native.windows) && old(Covers(ModeLists(), native.desktops)) ==>
                (ok ==> Trails(key, id)) && (|old(native.desktops)| < MAX_DESKTOPS ==> ok)
    {
      hide MapsHold, Sane, OccupiedBy, Covers, Decodable;
      var trailing := TrailingDesktop(key);
      ok, id := false, 0;
      if trailing.Some? {
        id := trailing.value;
        ok := HeldShown(trailing.value, output);
      }
    }

    /** The last desktop of the list when it is empty, else a new one at its end. */
    method TrailingDesktop(key: OutputKey) returns (r: Option<DesktopId>)
      requires native.Valid() && Maps() && mode != Shared
      modifies `localWorkspaces, `globalAssigned, `globalInverse, `sharedIds, `managed, native`desktops, native`next
      ensures native.Valid() && Maps()
      ensures r.Some? ==> r.value in native.desktops && r.value in At(ModeLists(), key) && r.value !in OccupiedBy(native.windows)
      ensures native.faithful && old(native.Live()).Some? && Decodable(native.windows) && old(Covers(ModeLists(), native.desktops)) ==>
                (r.Some? ==> Trails(key, r.value)) && (|old(native.desktops)| < MAX_DESKTOPS ==> r.Some?)
    {
      hide MapsHold, Sane, OccupiedBy, Covers, Decodable, Created;
      OccupiedBelow(native.desktops, native.screens, native.views, native.sharedView, native.windows, native.next);
      LiveSound(native.desktops, native.screens, native.views, native.sharedView, native.windows, native.next);
      ListedLive(key);
      CreatedLast(State(), key);
      var list := At(localWorkspaces, key);
      if mode == GlobalUnique {
        var live := native.ReadDesktops();
        list := if live.Some? then Only(At(globalAssigned, key), live.value) else [];
        OnlyMembers(At(globalAssigned, key), native.desktops);
      }
      r := ResolveTrailing(list);
      if r.Some? {
        assert r.value in list;
      } else {
        r := AppendDesktopFor(key);
      }
    }

    /** Show a desktop unless it is shown already; the trailing desktop is never traded. */
    method HeldShown(id: DesktopId, output: Output) returns (ok: bool)
      requires native.Valid() && id in native.desktops
      modifies native`views
      ensures native.Valid()
      ensures ok ==> native.View(output) == Some(id)
      ensures native.faithful ==> ok
    {
      hide Sane;
      var view := native.ReadView(output);
      if view == Some(id) {
        return true;
      }
      HeldBelow(native.desktops, native.screens, native.views, native.sharedView, native.windows, native.next, id);
      ok := native.ShowOn(id, output);
    }

    method SelectSharedTrailing(live: Option<seq<DesktopId>>) returns (ok: bool, ghost id: DesktopId)
      requires native.Valid() && Maps() && mode == Shared && (live.Some? ==> live.value == native.desktops)
      modifies `sharedIds, `managed, native`desktops, native`next, native`views, native`sharedView
      ensures native.Valid() && Maps()
      ensures ok ==> id in native.desktops && id !in OccupiedBy(native.windows)
      ensures ok && native.faithful ==> ShowsEverywhere(id)
    {
      hide MapsHold, Sane;
      ok, id := false, 0;
      OccupiedBelow(native.desktops, native.screens, native.views, native.sharedView, native.windows, native.next);
      if live.Some? {
        var done := RebuildSharedMapping(live);
      }
      var now := native.ReadDesktops();
      var existing := ResolveTrailing(if now.Some? then now.value else []);
      if existing.None? {
        existing := AppendDesktopForShared();
      }
      if existing.Some? {
        id := existing.value;
        SynchronizeShared(existing.value);
        ok := true;
      }
    }

    /** Show the remembered view on the active output; an entry that no longer resolves is dropped. */
    method SelectPrevious() returns (ok: bool)
      requires Valid()
      modifies `globalAssigned, `globalInverse, `previousByOutput, `previousShared, native`views, native`sharedView
      ensures Valid()
      ensures enabled && mode == PerOutputLocal && native.faithful && native.Live().Some? && Recalls(old(previousByOutput), old(native.activeOutput)) ==>
                && previousByOutput == old(previousByOutput)
                && native.views == old(native.views)[native.activeOutput.value := previousByOutput[RecallKey(native.activeOutput.value)]]
    {
      hide MapsHold, Sane, AllGuarded, RecordsSound, ViewHistory.Sound;
      ok := false;
      if !enabled {
        return;
      }
      if mode == Shared {
        ok := SelectPreviousShared();
        return;
      }
      var output := native.ReadActiveOutput();
      if output.None? {
        return;
      }
      var key := outputKeys.KeyFor(output.value);
      if key.None? || key.value !in previousByOutput {
        return;
      }
      ok := ShowPrevious(output.value, key.value);
    }

    /** Show the output's remembered view, or drop the entry when it no longer resolves. */
    method ShowPrevious(output: Output, key: OutputKey) returns (ok: bool)
      requires native.Valid() && Maps() && Remembers() && key in previousByOutput
      modifies `globalAssigned, `globalInverse, `previousByOutput, native`views
      ensures native.Valid() && Maps() && Remembers()
      ensures mode == PerOutputLocal && native.faithful && native.Live().Some?
              && old(previousByOutput[key]) in native.desktops && old(previousByOutput[key]) in At(localWorkspaces, key) ==>
                previousByOutput == old(previousByOutput) && native.views == old(native.views)[output := previousByOutput[key]]
    {
      ok := false;
      var id := previousByOutput[key];
      var live := native.ReadDesktops();
      if live.None? {
        return;
      }
      var found := id in live.value && PreviousInScope(key, id, live.value);
      if found {
        found := FindLive(id);
      }
      if !found {
        previousByOutput := previousByOutput - {key};
        return;
      }
      var view := native.ReadView(output);
      ok := view == Some(id);
      if !ok {
        ok := ShowScoped(id, output);
      }
    }

    ghost function RecallKey(output: Output): OutputKey
      reads outputKeys`slots, outputKeys`byOutput
    {
      var key := KeyOf(outputKeys.slots, outputKeys.byOutput, output);
      if key.Some? then key.value else ""
    }

    /** The active output has a remembered view that is live and on its list. */
    ghost predicate Recalls(previous: map<OutputKey, DesktopId>, active: Option<Output>)
      reads `localWorkspaces, native`desktops, outputKeys`slots, outputKeys`byOutput
    {
      && active.Some? && KeyOf(outputKeys.slots, outputKeys.byOutput, active.value).Some?
      && RecallKey(active.value) in previous && previous[RecallKey(active.value)] in native.desktops
      && previous[RecallKey(active.value)] in At(localWorkspaces, RecallKey(active.value))
    }

    method SelectPreviousShared() returns (ok: bool)
      requires native.Valid()
      modifies `previousShared, native`views, native`sharedView
      ensures native.Valid()
      ensures ok ==> previousShared == old(previousShared) && previousShared.Some?
      ensures ok && native.faithful ==> old(native.sharedView) == previousShared || ShowsEverywhere(previousShared.value)
    {
      hide Sane;
      ok := false;
      var live := native.ReadDesktops();
      if previousShared.None? || live.None? {
        return;
      }
      if previousShared.value !in live.value {
        previousShared := None;
        return;
      }
      var view := native.ReadSharedView();
      if view != previousShared {
        SynchronizeShared(previousShared.value);
      }
      ok := true;
    }

    // ---- enabling ----

    method ResetMappingState()
      requires native.Valid()
      modifies `localWorkspaces, `localPrimary, `globalAssigned, `globalInverse, `globalPrimary, `sharedIds, `managed, `displacedByOrigin,
               `lastVisibleByKey, `lastKnownByKey, `previousByOutput, `historyBaselineByKey, `lastSharedVisible, `previousShared
      ensures Maps() && Records() && Remembers()
      ensures localWorkspaces == map[] && globalAssigned == map[] && globalInverse == map[] && sharedIds == [] && managed == {}
      ensures displacedByOrigin == map[] && lastVisibleByKey == map[] && lastKnownByKey == map[]
      ensures previousByOutput == map[] && historyBaselineByKey == map[] && lastSharedVisible == None && previousShared == None
    {
      hide Sane, MapsHold;
      LiveSound(native.desktops, native.screens, native.views, native.sharedView, native.windows, native.next);
      HoldNothing(native.desktops, native.next);
      localWorkspaces, localPrimary := map[], None;
      globalAssigned, globalInverse, globalPrimary := map[], map[], None;
      sharedIds, managed := [], {};
      displacedByOrigin := map[];
      lastVisibleByKey, lastKnownByKey := map[], map[];
      previousByOutput, historyBaselineByKey := map[], map[];
      lastSharedVisible, previousShared := None, None;
    }

    method Enable()
      requires Valid()
      modifies this, native`desktops, native`next, native`removals, outputKeys
      ensures Valid() && Logged() && enabled
      ensures !old(enabled) ==> displacedByOrigin == map[] && previousByOutput == map[]
    {
      hide MapsHold, Sane, AllGuarded, RecordsSound, ViewHistory.Sound;
      if enabled {
        return;
      }
      ResetMappingState();
      enabled := true;
      RefreshKeys();
      RebuildAndClean();
    }

    method RebuildAndClean()
      requires native.Valid() && Maps() && RemovalsGuarded() && Remembers()
      modifies native`desktops, native`next, native`removals, `managed, `localWorkspaces, `localPrimary, `globalAssigned, `globalInverse,
               `globalPrimary, `sharedIds, `lastVisibleByKey, `lastKnownByKey, `previousByOutput, `historyBaselineByKey,
               `lastSharedVisible, `previousShared
      ensures native.Valid() && Maps() && RemovalsGuarded() && Logged() && Remembers()
      ensures old(previousByOutput) == map[] ==> previousByOutput == map[]
    {
      hide MapsHold, Sane, AllGuarded, RecordsSound, Tended, Settled, Cleaned, Dependable, ViewHistory.Sound;
      RebuildIfReadable();
      CleanupDesktops();
      PrimeTracking();
    }

    method RebuildIfReadable()
      requires native.Valid() && Maps()
      modifies `localWorkspaces, `localPrimary, `globalAssigned, `globalInverse, `globalPrimary, `sharedIds, `managed
      ensures Maps()
    {
      hide MapsHold, Tended, Settled;
      var live := native.ReadDesktops();
      if live.Some? {
        ghost var done := RebuildFor(live.value);
      }
    }

    /** Observe every view once, remembering none before it. */
    method PrimeTracking()
      requires native.Valid() && Remembers()
      modifies `lastVisibleByKey, `lastKnownByKey, `previousByOutput, `historyBaselineByKey, `lastSharedVisible, `previousShared
      ensures Remembers()
      ensures previousByOutput == map[] || previousByOutput == old(previousByOutput)
    {
      var screens := native.ReadScreens();
      if screens.None? {
        return;
      }
      ghost var views := RefreshLastVisible(screens.value);
      ghost var grouped := RefreshLastKnown(screens.value);
      for i := 0 to |screens.value|
      {
        var key := outputKeys.KeyFor(screens.value[i]);
        var view := native.ReadView(screens.value[i]);
        if key.Some? && view.Some? {
          historyBaselineByKey := historyBaselineByKey[key.value := view.value];
        }
      }
      previousByOutput := map[];
      lastSharedVisible := native.ReadSharedView();
      previousShared := None;
    }

    method Disable()
      requires Valid()
      modifies this
      ensures Valid() && !enabled
      ensures localWorkspaces == map[] && globalAssigned == map[] && globalInverse == map[] && sharedIds == []
      ensures displacedByOrigin == map[] && previousByOutput == map[]
    {
      hide MapsHold, Sane, AllGuarded, RecordsSound, ViewHistory.Sound;
      enabled := false;
      ResetMappingState();
    }

    // ---- whole runs ----

    /** A signal can be relied on, the output keeps its key through it, and no output waits to be displaced
        or to return. */
    ghost predicate Steady(output: Output)
      reads this, native, outputKeys
    {
      && enabled && mode == PerOutputLocal && native.faithful && native.Live().Some? && native.Connected().Some?
      && output in native.screens && output.tuple.Some? && native.View(output).Some?
      && KeyedInOrder(outputKeys.slots, outputKeys.byOutput, native.screens, |native.screens|)
      && AtRest(SceneWith(Keys(native.screens)))
    }

    ghost predicate OnList(id: DesktopId, output: Output)
      reads `localWorkspaces, native`desktops, outputKeys`slots, outputKeys`byOutput
    {
      id in native.desktops && id in At(localWorkspaces, RecallKey(output))
    }

    /** The active output has a view and a remembered view, both on its list, and its view was observed. */
    ghost predicate Toggleable(output: Output)
      reads this, native, outputKeys
    {
      && Steady(output) && native.activeOutput == Some(output)
      && Recalls(previousByOutput, native.activeOutput) && OnList(native.View(output).value, output)
      && ViewHistory.At(historyBaselineByKey, RecallKey(output)) == native.View(output)
    }

    /** Cleanup leaves the desktop on the output's list: a window, a pending send or a displaced output
        holds it, or it is the last of that list and every live desktop is listed. */
    ghost predicate Lasts(id: DesktopId, output: Output)
      reads `localWorkspaces, `retained, `displacedByOrigin, native`desktops, native`windows, outputKeys`slots, outputKeys`byOutput
    {
      && OnList(id, output)
      && (id in OccupiedBy(native.windows) || id in retained + DisplacedIds(displacedByOrigin)
          || (Covers(localWorkspaces, native.desktops) && Last(At(localWorkspaces, RecallKey(output))) == Some(id)))
    }

    /** There is room for one more desktop per connected output whose list does not end in an empty one. */
    ghost predicate Roomy()
      reads `localWorkspaces, `localPrimary, `globalPrimary, native`desktops, native`windows, native`screens, outputKeys`slots, outputKeys`byOutput
    {
      |native.desktops| + Wanting(OccupiedBy(native.windows), Rebuilt(localWorkspaces, native.desktops, Primary()), Keys(native.screens)) <= MAX_DESKTOPS
    }

    /** View and remembered view of the output. */
    ghost function ViewPair(output: Output): (Option<DesktopId>, Option<DesktopId>)
      reads `previousByOutput, native`views, outputKeys`slots, outputKeys`byOutput
    {
      (native.View(output), ViewHistory.At(previousByOutput, RecallKey(output)))
    }

    /** Cleanup has room, and leaves both the view and the remembered view. */
    ghost predicate Lasting(output: Output)
      reads this, native, outputKeys
    {
      Roomy() && Toggleable(output) && Lasts(native.View(output).value, output) && Lasts(previousByOutput[RecallKey(output)], output)
    }

    /** One signal in the local mode. */
    method SignalOnce(output: Output) returns (ghost report: Report)
      requires Valid() && enabled && mode == PerOutputLocal && native.faithful
      modifies this, native`desktops, native`next, native`removals, native`views, outputKeys
      ensures Valid() && Logged() && enabled && retained == old(retained)
      ensures native.next >= old(native.next) && forall id <- native.desktops :: id in old(native.desktops) || id >= old(native.next)
      ensures old(native.Live()).None? ==> native.desktops == old(native.desktops)
      ensures old(Steady(output)) ==> report.done && SteadilyOn(output) && (native.Live().Some? ==> Steady(output) && Notes(output))
    {
      hide MapsHold, Sane, AllGuarded, RecordsSound, KeyedInOrder, Tended, AtRest, LostIn, Plausible, LossesOf, Reconciled, PrunedRecords,
           SeenIn, ViewHistory.Signalled, ViewHistory.Sound, Fits, Pass;
      ghost var steady, slots, byOutput, s, was, h, views :=
        Steady(output), outputKeys.slots, outputKeys.byOutput, SceneWith(Keys(native.screens)), State(), History(), native.views;
      report := HandleTopologySignal();
      TendedKeeps(mode, Circumstances(), |Kept(mode, Circumstances())|, Staged(report, Before(), was), State(), "");
      if steady {
        LiveSound(native.desktops, native.screens, native.views, native.sharedView, native.windows, native.next);
        KeysStay(slots, byOutput, outputKeys.slots, outputKeys.byOutput, native.screens);
        KeyedConnected(outputKeys.slots, outputKeys.byOutput, native.screens, output);
        RestStays(s, report.losses, Choice(s.keys));
        assert Staged(report, s, was) == was;
        StillAtRest(s, was);
        ToggleRemembered(h, outputKeys.slots, outputKeys.byOutput, native.screens, views, output, native.desktops, ModeLists());
      }
    }

    /** Keys, views, primary and records stay through the signal, and cleanup tends what there was. */
    twostate predicate SteadilyOn(output: Output)
      reads this, native, outputKeys
    {
      && Keys(native.screens) == old(Keys(native.screens)) != [] && RecallKey(output) == old(RecallKey(output))
      && KeyOf(outputKeys.slots, outputKeys.byOutput, output).Some?
      && native.views == old(native.views) && Primary() == old(Primary())
      && displacedByOrigin == old(PrunedRecords(displacedByOrigin, native.desktops))
      && Tended(mode, Circumstances(), |Kept(mode, Circumstances())|, old(State()), State()) && Tidied(old(State()))
    }

    /** A desktop that was on the output's list is there while it is live, as it is while in view; and it
        lasts when there was room and it did. */
    twostate predicate Stays(id: DesktopId, output: Output)
      reads this, native, outputKeys
    {
      old(OnList(id, output)) ==>
        && (id in native.desktops ==> OnList(id, output))
        && (native.View(output) == Some(id) ==> id in native.desktops)
        && (old(Roomy() && Lasts(id, output)) ==> native.Live().Some? && Roomy() && Lasts(id, output) && OnList(id, output))
    }

    /** The same signal, told of the view and of the one left behind. */
    method SignalAfter(output: Output, ghost view: DesktopId, ghost left: DesktopId) returns (ghost report: Report)
      requires Valid() && enabled && mode == PerOutputLocal && native.faithful
      modifies this, native`desktops, native`next, native`removals, native`views, outputKeys
      ensures Valid() && Logged() && enabled
      ensures native.next >= old(native.next) && forall id <- native.desktops :: id in old(native.desktops) || id >= old(native.next)
      ensures old(native.Live()).None? ==> native.desktops == old(native.desktops)
      ensures old(Steady(output)) ==>
                && report.done && Keys(native.screens) == old(Keys(native.screens)) && RecallKey(output) == old(RecallKey(output))
                && KeyOf(outputKeys.slots, outputKeys.byOutput, output).Some? && native.views == old(native.views)
                && (native.Live().Some? ==> Steady(output) && Notes(output)) && Stays(view, output) && Stays(left, output)
    {
      hide MapsHold, Sane, AllGuarded, RecordsSound, KeyedInOrder, Tended, Tidied, AtRest, PrunedRecords, Startable, Wanting, Rebuilt, Covers,
           Notes, ViewHistory.Sound;
      ghost var steady, was, records, c, roomy := Steady(output), State(), displacedByOrigin, Circumstances(), Roomy();
      OccupiedBelow(native.desktops, native.screens, native.views, native.sharedView, native.windows, native.next);
      StartableFromMaps(mode, c, was, localWorkspaces, Global());
      ghost var a, b := roomy && Lasts(view, output), roomy && Lasts(left, output);
      ghost var x, y := OnList(view, output), OnList(left, output);
      report := SignalOnce(output);
      if steady {
        StartableStill(mode, c, Circumstances(), was);
        if x { StillListed(was, view, output); }
        if y { StillListed(was, left, output); }
        if a { StillLasts(was, records, view, output); }
        if b { StillLasts(was, records, left, output); }
      }
    }

    /** The output is observed at its view, and remembers the one observed before when that is still on its list. */
    twostate predicate Notes(output: Output)
      reads this, native, outputKeys
    {
      var left := old(ViewHistory.At(historyBaselineByKey, RecallKey(output)));
      && ViewHistory.At(historyBaselineByKey, RecallKey(output)) == native.View(output)
      && (left.Some? && left != native.View(output) && OnList(left.value, output) ==> ViewHistory.At(previousByOutput, RecallKey(output)) == left)
    }

    lemma StillAtRest(s: Scene, was: Domain)
      requires mode == PerOutputLocal && Plausible(s) && AtRest(s) && s.keys == Keys(native.screens) && s.live == was.live && s.lists == was.lists
      requires Tended(mode, Circumstances(), |Kept(mode, Circumstances())|, was, State())
      requires displacedByOrigin == s.records && OnlyConnectedKnown()
      ensures AtRest(SceneWith(Keys(native.screens)))
    {
      var c, n, now := Circumstances(), |Kept(mode, Circumstances())|, SceneWith(Keys(native.screens));
      forall key
        ensures forall id <- At(s.lists, key) | id in now.live :: id in At(now.lists, key)
      {
        TendedKeeps(mode, c, n, was, State(), key);
      }
      TendedKeeps(mode, c, n, was, State(), "");
      forall id | id in DisplacedIds(s.records)
        ensures id in now.live
      {
        assert id in s.live && !Retirable(c, id);
      }
      StaysAtRest(s, now);
    }

    /** What stays live stays on the output's list; what is in view stays live. */
    lemma StillListed(was: Domain, id: DesktopId, output: Output)
      requires mode == PerOutputLocal && Tended(mode, Circumstances(), |Kept(mode, Circumstances())|, was, State())
      requires id in was.live && id in At(was.lists, RecallKey(output))
      ensures id in native.desktops ==> OnList(id, output)
      ensures output in native.screens && native.View(output) == Some(id) ==> id in native.desktops
    {
      TendedKeeps(mode, Circumstances(), |Kept(mode, Circumstances())|, was, State(), RecallKey(output));
    }

    /** There was room, and cleanup left the desktop there. */
    lemma StillLasts(was: Domain, records: Records, id: DesktopId, output: Output)
      requires mode == PerOutputLocal && Tended(mode, Circumstances(), |Kept(mode, Circumstances())|, was, State()) && Tidied(was)
      requires Startable(mode, Circumstances(), was) && Keys(native.screens) != [] && native.Connected().Some? && 0 < |was.live| <= MAX_DESKTOPS
      requires |was.live| + Wanting(OccupiedBy(native.windows), Rebuilt(was.lists, was.live, Primary()), Keys(native.screens)) <= MAX_DESKTOPS
      requires id in was.live && id in At(was.lists, RecallKey(output))
      requires displacedByOrigin == PrunedRecords(records, was.live)
      requires id in OccupiedBy(native.windows) || id in retained + DisplacedIds(records)
               || (Covers(was.lists, was.live) && Last(At(was.lists, RecallKey(output))) == Some(id))
      ensures native.Live().Some? && Roomy() && Lasts(id, output)
    {
      hide Tended, Pass, Fits, Covers, Startable, Wanting, Rebuilt;
      var c := Circumstances();
      KeysOfNoDup(outputKeys.slots, outputKeys.byOutput, native.screens);
      if id in DisplacedIds(records) {
        StaysRecorded(records, was.live, id);
      }
      if native.Visible() {
        RoomyPass(c, was, Primary());
        if id !in c.occupied && id !in c.kept {
          LastKept(c, was, Primary(), RecallKey(output), id);
        }
      }
      TendedKeeps(mode, c, |Kept(mode, c)|, was, State(), RecallKey(output));
    }

    /** Select the previous view on an output that can be toggled. */
    method Toggle(output: Output)
      requires Valid() && enabled && mode == PerOutputLocal && native.faithful
      modifies `globalAssigned, `globalInverse, `previousByOutput, `previousShared, native`views, native`sharedView
      ensures Valid()
      ensures old(Toggleable(output)) ==>
                && Steady(output) && previousByOutput == old(previousByOutput) && RecallKey(output) in previousByOutput
                && native.View(output) == Some(previousByOutput[RecallKey(output)]) && native.View(output) != old(native.View(output))
    {
      hide MapsHold, Sane, AllGuarded, RecordsSound, KeyedInOrder, AtRest;
      var ok := SelectPrevious();
    }

    /** Select the previous view, then a signal. When the view left behind survives, view and remembered
        view trade places; and it does survive when cleanup has room and nothing to retire it for. */
    method PreviousThenSignal(output: Output) returns (ghost report: Report)
      requires Valid() && enabled && mode == PerOutputLocal && native.faithful
      modifies this, native`desktops, native`next, native`removals, native`views, native`sharedView, outputKeys
      ensures Valid() && Logged() && enabled
      // No desktop id comes back, and unreadable desktops are left alone.
      ensures native.next >= old(native.next) && forall id <- native.desktops :: id in old(native.desktops) || id >= old(native.next)
      ensures old(native.Live()).None? ==> native.desktops == old(native.desktops)
      ensures old(Toggleable(output)) ==> report.done && Keys(native.screens) == old(Keys(native.screens))
      ensures old(Toggleable(output)) && native.Live().Some? && old(native.View(output).value) in native.desktops ==>
                Toggleable(output) && ViewPair(output) == (old(ViewPair(output)).1, old(ViewPair(output)).0)
      ensures old(Lasting(output)) ==> native.Live().Some? && old(native.View(output).value) in native.desktops && Lasting(output)
    {
      hide Circumstances, State, Kept, Primary, SceneWith, Keys, KeyOf, MapsHold, Sane, AllGuarded, RecordsSound, KeyedInOrder, AtRest, Roomy, Lasts,
           ViewHistory.Sound;
      ghost var view, left := native.View(output), ViewHistory.At(previousByOutput, RecallKey(output));
      Toggle(output);
      report := SignalAfter(output, if view.Some? then view.value else 0, if left.Some? then left.value else 0);
    }

    /** Twice over restores both the view and the remembered view while both desktops survive. */
    method PreviousTwice(output: Output)
      requires Valid() && Toggleable(output)
      modifies this, native`desktops, native`next, native`removals, native`views, native`sharedView, outputKeys
      ensures Valid() && Logged()
      ensures native.Live().Some? && old(native.View(output).value) in native.desktops && old(previousByOutput[RecallKey(output)]) in native.desktops ==>
                ViewPair(output) == old(ViewPair(output)) && Toggleable(output)
      ensures old(Lasting(output)) ==> ViewPair(output) == old(ViewPair(output)) && Lasting(output)
    {
      hide MapsHold, Sane, AllGuarded, RecordsSound, KeyedInOrder, AtRest, PrunedRecords, Roomy, Lasts, ViewHistory.Sound;
      LiveSound(native.desktops, native.screens, native.views, native.sharedView, native.windows, native.next);
      ghost var first := PreviousThenSignal(output);
      ghost var second := PreviousThenSignal(output);
    }

    /** Two outputs, one just back with its record waiting and showing one of its recorded desktops, the
        other active; both recorded desktops have windows. */
    ghost predicate AwaitsReturn(back: Output, other: Output)
      reads this, native, outputKeys
    {
      var a, b := RecallKey(back), RecallKey(other);
      && enabled && mode == GlobalUnique && native.faithful
      && native.screens == [back, other] && back.tuple.Some? && other.tuple.Some? && native.activeOutput == Some(other)
      && KeyedInOrder(outputKeys.slots, outputKeys.byOutput, native.screens, 2)
      && native.desktops == [0, 1, 2] && native.views == map[back := 1, other := 2] && {1, 2} <= OccupiedBy(native.windows)
      && globalAssigned == map[b := [0, 1, 2]] && globalInverse == map[0 := b, 1 := b, 2 := b]
      && displacedByOrigin == map[a := Record([1, 2], b)] && lastVisibleByKey.Keys + lastKnownByKey.Keys <= {a, b}
    }

    /** Two identified outputs have two keys, in output order. */
    lemma TwoKeyed(back: Output, other: Output)
      requires outputKeys.Valid() && native.screens == [back, other] && NoDup(native.screens) && back.tuple.Some? && other.tuple.Some?
      requires KeyedInOrder(outputKeys.slots, outputKeys.byOutput, native.screens, 2)
      ensures KeyOf(outputKeys.slots, outputKeys.byOutput, back) == Some(RecallKey(back))
      ensures KeyOf(outputKeys.slots, outputKeys.byOutput, other) == Some(RecallKey(other))
      ensures RecallKey(back) != RecallKey(other) && Keys(native.screens) == [RecallKey(back), RecallKey(other)]
    {
      KeyedConnected(outputKeys.slots, outputKeys.byOutput, native.screens, back);
      KeyedConnected(outputKeys.slots, outputKeys.byOutput, native.screens, other);
      KeyedInOrderApart(outputKeys.slots, outputKeys.byOutput, native.screens);
      assert native.screens[0] == back && native.screens[1] == other;
      assert [back, other][..1] == [back] && [back][..0] == [];
      assert KeysOf(outputKeys.slots, outputKeys.byOutput, [back]) == [RecallKey(back)];
    }

    /** The second position on the active output is a desktop that the returned one shows. */
    lemma CanTradeBack(back: Output, other: Output)
      requires native.Valid() && outputKeys.Valid() && AwaitsReturn(back, other)
      ensures KeyOf(outputKeys.slots, outputKeys.byOutput, back) == Some(RecallKey(back))
      ensures KeyOf(outputKeys.slots, outputKeys.byOutput, other) == Some(RecallKey(other)) && RecallKey(back) != RecallKey(other)
      ensures ActiveScope(native.desktops) == [0, 1, 2]
      ensures back in native.screens && CanTrade(native.views, 1, other, back)
    {
      TwoKeyed(back, other);
      OnlyMembers([0, 1, 2], native.desktops);
    }

    /** The selection: the two outputs trade, and the second recorded desktop is on the returned output's list. */
    method TradeOneBack(back: Output, other: Output)
      requires Valid() && AwaitsReturn(back, other)
      modifies `localWorkspaces, `localPrimary, `globalAssigned, `globalInverse, `sharedIds, `managed, native`views, native`sharedView
      ensures Valid() && At(globalAssigned, RecallKey(back)) == [2]
      ensures globalAssigned.Keys == {RecallKey(back), RecallKey(other)}
    {
      hide MapsHold, Sane, AllGuarded, RecordsSound, KeyedInOrder, ViewHistory.Sound, OccupiedBy, ActiveScope, CanTrade, Assigned, Selected,
           ShowsEverywhere;
      CanTradeBack(back, other);
      TradeOnto(RecallKey(back), RecallKey(other));
      var ok, scope := SelectLogical(2);
      assert Traded(1, other);
    }

    /** Selecting on the other output the desktop that the returned one shows trades a recorded desktop onto
        the returned output's list; the next signal then brings the record back out of order. */
    method TradedBeforeReturn(back: Output, other: Output) returns (ghost report: Report)
      requires Valid() && AwaitsReturn(back, other)
      modifies this, native`desktops, native`next, native`removals, native`views, native`sharedView, outputKeys
      ensures Valid() && report.done && RecallKey(back) == old(RecallKey(back))
      ensures {1, 2} <= SetOf(At(globalAssigned, RecallKey(back))) && !Home(globalAssigned, RecallKey(back), [1, 2])
    {
      hide MapsHold, Sane, AllGuarded, RecordsSound, KeyedInOrder, Tended, Tidied, AtRest, LostIn, Plausible, LossesOf, Reconciled,
           SeenIn, ViewHistory.Signalled, ViewHistory.Sound, Fits, Pass, OccupiedBy;
      LiveSound(native.desktops, native.screens, native.views, native.sharedView, native.windows, native.next);
      TwoKeyed(back, other);
      TradeOneBack(back, other);
      report := SignalReturns(back, other);
    }

    /** The signal that brings it back. */
    method SignalReturns(back: Output, other: Output) returns (ghost report: Report)
      requires Valid() && enabled && mode == GlobalUnique && native.faithful && native.screens == [back, other]
      requires Keys(native.screens) == [RecallKey(back), RecallKey(other)] && RecallKey(back) != RecallKey(other)
      requires KeyedInOrder(outputKeys.slots, outputKeys.byOutput, native.screens, 2) && {1, 2} <= OccupiedBy(native.windows)
      requires native.desktops == [0, 1, 2] && displacedByOrigin == map[RecallKey(back) := Record([1, 2], RecallKey(other))]
      requires At(globalAssigned, RecallKey(back)) == [2] && globalAssigned.Keys == {RecallKey(back), RecallKey(other)}
      requires lastVisibleByKey.Keys + lastKnownByKey.Keys <= {RecallKey(back), RecallKey(other)}
      modifies this, native`desktops, native`next, native`removals, native`views, outputKeys
      ensures Valid() && report.done && RecallKey(back) == old(RecallKey(back))
      ensures {1, 2} <= SetOf(At(globalAssigned, RecallKey(back))) && !Home(globalAssigned, RecallKey(back), [1, 2])
    {
      hide MapsHold, Sane, AllGuarded, RecordsSound, KeyedInOrder, Tended, Tidied, AtRest, LostIn, Plausible, LossesOf, Reconciled, PrunedRecords,
           SeenIn, ViewHistory.Signalled, ViewHistory.Sound, Fits, Pass, OccupiedBy;
      ghost var slots, byOutput, s, was, a := outputKeys.slots, outputKeys.byOutput, SceneWith(Keys(native.screens)), State(), RecallKey(back);
      NothingPruned(displacedByOrigin, native.desktops);
      report := HandleTopologySignal();
      LiveSound(native.desktops, native.screens, native.views, native.sharedView, native.windows, native.next);
      KeysStay(slots, byOutput, outputKeys.slots, outputKeys.byOutput, native.screens);
      SecondKeepsPlace(s, report.losses, Choice(s.keys), a, RecallKey(other));
      TendedKeeps(mode, Circumstances(), |Kept(mode, Circumstances())|, Staged(report, Before(), was), State(), a);
      OutOfOrder(a);
    }

    lemma OutOfOrder(key: OutputKey)
      requires Maps() && OrderKept([2, 1], At(globalAssigned, key), native.desktops) && 1 in native.desktops && 2 in native.desktops
      ensures {1, 2} <= SetOf(At(globalAssigned, key)) && !Home(globalAssigned, key, [1, 2])
    {
      OnlyMembers([2, 1], native.desktops);
      OrderKeptMembers([2, 1], At(globalAssigned, key), native.desktops);
      NotInOrder(At(globalAssigned, key), native.desktops);
    }

    /** With no output identified a signal still runs, and an entry whose desktop is held outlives the
        output it belongs to. */
    method UnidentifiedSignal(key: OutputKey)
      requires Valid() && enabled && mode == PerOutputLocal && native.faithful && native.Live().Some?
      requires (forall output <- native.screens :: output.tuple.None?)
      requires key in previousByOutput && previousByOutput[key] in native.desktops && previousByOutput[key] in At(localWorkspaces, key)
      requires previousByOutput[key] in OccupiedBy(native.windows) || previousByOutput[key] in retained
      modifies this, native`desktops, native`next, native`removals, native`views, outputKeys
      ensures Keys(native.screens) == [] && ViewHistory.At(previousByOutput, key) == old(ViewHistory.At(previousByOutput, key))
    {
      hide MapsHold, Sane, AllGuarded, RecordsSound, KeyedInOrder, Tended, ViewHistory.Sound;
      ghost var was := State();
      ghost var report := HandleTopologySignal();
      NoKeys(outputKeys.slots, outputKeys.byOutput, native.screens);
      TendedKeeps(mode, Circumstances(), |Kept(mode, Circumstances())|, was, State(), key);
    }

    /** The environment moves between two operations. */
    method EnvironmentStep()
      requires Valid()
      modifies native, `retained
      ensures Valid() && native.removals == old(native.removals)
    {
      hide MapsHold, Sane, AllGuarded, RecordsSound, ViewHistory.Sound;
      ghost var live, next := native.desktops, native.next;
      native.Environment();
      LiveSound(native.desktops, native.screens, native.views, native.sharedView, native.windows, native.next);
      HoldOn(localWorkspaces, Global(), live, next, native.desktops, native.next);
      retained := *;
    }

    /** Any sequence of operations and environment steps. */
    method AnyRun(steps: nat)
      requires Valid()
      modifies this, native, outputKeys
      ensures Valid() && Logged()
    {
      hide MapsHold, Sane, AllGuarded, RecordsSound, ViewHistory.Sound;
      for n := 0 to steps
        invariant Valid() && Logged()
      {
        var choice: nat, index: int, from: Output, to: Output, id: DesktopId := *, *, *, *, *;
        match choice {
          case 0 => EnvironmentStep();
          case 1 => var report := HandleTopologySignal();
          case 2 => var ok, scope := SelectLogical(index);
          case 3 => var ok, step := SelectRelative(index);
          case 4 => var ok, trailing := SelectTrailingOrCreate();
          case 5 => var ok := SelectPrevious();
          case 6 => var r, commit := CommitWorkspaceMigration(from, to, id);
          case 7 => Enable();
          case _ => Disable();
        }
      }
    }

    /** The primary is kept while its output is connected, and the rebuild manages what it adopts. */
    ghost predicate Rebuilds(lists: Lists, before: set<DesktopId>, was: Option<OutputKey>, primary: Option<OutputKey>)
      reads `managed, native`desktops, native`screens, outputKeys`slots, outputKeys`byOutput
    {
      && (was.Some? && was.value in Keys(native.screens) ==> primary == was)
      && (was.None? || was.value !in Keys(native.screens) ==> Keys(native.screens) != [] && primary == Some(Keys(native.screens)[0]))
      && Keys(native.screens) != []
      && managed == before + SetOf(Unlisted(KeptLive(lists, native.desktops), native.desktops))
    }
  }
}
