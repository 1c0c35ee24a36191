// The window system as the workspace adapter sees it: desktops in number order,
// connected outputs, the view on each, and windows. Any call may fail.

module NativeWorkspace {
  import opened Prelude
  import opened SessionKeys
  import opened WorkspaceLists
  import opened Lifecycle

  const MAX_LIST := 1024

  /** A window's desktops, whether it is on all of them, and its output when that is readable. */
  datatype Window = Window(desktops: seq<DesktopId>, sticky: bool, output: Option<Output>)

  /** The desktops some window is a member of; a window on all desktops belongs to none. */
  function OccupiedBy(windows: seq<Window>): set<DesktopId> {
    set w, id | w in windows && !w.sticky && id in w.desktops :: id
  }

  /** A window list is readable when it and each membership in it are within bounds. */
  predicate Decodable(windows: seq<Window>) {
    |windows| <= MAX_LIST && forall w <- windows :: w.sticky || |w.desktops| <= MAX_DESKTOPS
  }

  /** No desktop or output is listed twice, and every desktop met was created. */
  ghost predicate Sane(desktops: seq<DesktopId>, screens: seq<Output>, views: map<Output, DesktopId>, sharedView: Option<DesktopId>,
                       windows: seq<Window>, next: DesktopId) {
    && NoDup(desktops) && NoDup(screens)
    && (forall id <- desktops :: id < next)
    && (forall output <- views :: views[output] < next)
    && (sharedView.Some? ==> sharedView.value < next)
    && (forall id <- OccupiedBy(windows) :: id < next)
  }

  /** A removal as it was requested, with the state it was requested in. */
  datatype Removal = Removal(id: DesktopId, live: seq<DesktopId>, windows: seq<Window>, screens: seq<Output>, views: map<Output, DesktopId>,
                             sharedView: Option<DesktopId>, retained: set<DesktopId>, displaced: set<DesktopId>, managed: set<DesktopId>)

  /** No window that is not on all desktops is on it, no connected output and not the shared view shows it; it is
      managed, neither retained nor displaced, not the last desktop, and two others remain. */
  ghost predicate Guarded(r: Removal) {
    && (forall w <- r.windows :: w.sticky || r.id !in w.desktops)
    && (forall output <- r.screens | output in r.views :: r.views[output] != r.id) && r.sharedView != Some(r.id)
    && r.id !in r.retained && r.id !in r.displaced && r.id in r.managed
    && |r.live| > 2 && r.live[|r.live| - 1] != r.id
  }

  ghost predicate AllGuarded(removals: seq<Removal>) {
    forall r <- removals :: Guarded(r)
  }

  class Native {
    /** Every call returns what there is and does what it says. */
    const faithful: bool
    var desktops: seq<DesktopId>
    var screens: seq<Output>
    var views: map<Output, DesktopId>
    var sharedView: Option<DesktopId>
    var windows: seq<Window>
    /** The output of the active window, else the active screen. */
    var activeOutput: Option<Output>
    var activeScreen: Option<Output>
    /** The desktops of the active window; none when there is no active window. */
    var activeDesktops: seq<DesktopId>
    /** The next desktop to be created; no desktop id is used twice. */
    var next: DesktopId
    /** Every removal ever asked for, with the state it was asked in. */
    ghost var removals: seq<Removal>

    ghost predicate Valid()
      reads this
    {
      Sane(desktops, screens, views, sharedView, windows, next)
    }

    /** The readable desktops: at least one and at most the cap. */
    function Live(): Option<seq<DesktopId>>
      reads `desktops
    {
      if 0 < |desktops| <= MAX_DESKTOPS then Some(desktops) else None
    }

    function Connected(): Option<seq<Output>>
      reads `screens
    {
      if 0 < |screens| <= MAX_LIST then Some(screens) else None
    }

    function View(output: Output): Option<DesktopId>
      reads `views
    {
      if output in views then Some(views[output]) else None
    }

    /** The desktops shown on a connected output or as the shared current desktop. */
    ghost function Shown(): set<DesktopId>
      reads `screens, `views, `sharedView
    {
      (set output | output in screens && output in views :: views[output])
      + (if sharedView.Some? then {sharedView.value} else {})
    }

    /** Everything a cleanup pass reads is there. */
    ghost predicate Readable()
      reads `desktops, `screens, `views, `sharedView, `windows
    {
      Live().Some? && Visible()
    }

    /** Views and windows are there. */
    ghost predicate Visible()
      reads `screens, `views, `sharedView, `windows
    {
      && Connected().Some? && sharedView.Some? && Decodable(windows)
      && forall output <- screens :: output in views
    }

    method ReadDesktops() returns (r: Option<seq<DesktopId>>)
      ensures r == None || r == Live()
      ensures faithful ==> r == Live()
    {
      var failed: bool := *;
      r := if failed && !faithful then None else Live();
    }

    method ReadScreens() returns (r: Option<seq<Output>>)
      ensures r == None || r == Connected()
      ensures faithful ==> r == Connected()
    {
      var failed: bool := *;
      r := if failed && !faithful then None else Connected();
    }

    method ReadView(output: Output) returns (r: Option<DesktopId>)
      ensures r == None || r == View(output)
      ensures faithful ==> r == View(output)
    {
      var failed: bool := *;
      r := if failed && !faithful then None else View(output);
    }

    method ReadSharedView() returns (r: Option<DesktopId>)
      ensures r == None || r == sharedView
      ensures faithful ==> r == sharedView
    {
      var failed: bool := *;
      r := if failed && !faithful then None else sharedView;
    }

    method ReadWindows() returns (r: Option<seq<Window>>)
      ensures r == None || (r == Some(windows) && Decodable(windows))
      ensures faithful && Decodable(windows) ==> r == Some(windows)
    {
      var failed: bool := *;
      r := if (failed && !faithful) || !Decodable(windows) then None else Some(windows);
    }

    method ReadActiveOutput() returns (r: Option<Output>)
      ensures r == None || r == activeOutput
      ensures faithful ==> r == activeOutput
    {
      var failed: bool := *;
      r := if failed && !faithful then None else activeOutput;
    }

    method ReadActiveScreen() returns (r: Option<Output>)
      ensures r == None || r == activeScreen
      ensures faithful ==> r == activeScreen
    {
      var failed: bool := *;
      r := if failed && !faithful then None else activeScreen;
    }

    method ReadActiveDesktops() returns (r: seq<DesktopId>)
      ensures r == [] || r == activeDesktops
      ensures faithful ==> r == activeDesktops
    {
      var failed: bool := *;
      r := if failed && !faithful then [] else activeDesktops;
    }

    /** Append a desktop; a call that fails may still have appended it. */
    method CreateDesktop() returns (ok: bool)
      requires Valid()
      modifies `desktops, `next
      ensures Valid() && next >= old(next)
      ensures ok ==> desktops == old(desktops) + [old(next)]
      ensures desktops == old(desktops) + [old(next)] || desktops == old(desktops)
      ensures desktops == old(desktops) + [old(next)] ==> next == old(next) + 1
      ensures faithful ==> ok
    {
      var failed: bool, effective: bool := *, *;
      ok := faithful || !failed;
      if ok || effective {
        NoDupConcat(desktops, [next]);
        desktops, next := desktops + [next], next + 1;
      }
    }

    /** Remove a desktop; a call that fails may still have removed it. The request is recorded, with
        what the caller wants kept, has displaced and manages. */
    method RemoveDesktop(id: DesktopId, ghost retained: set<DesktopId>, ghost displaced: set<DesktopId>, ghost managed: set<DesktopId>)
      returns (ok: bool)
      requires Valid()
      modifies `desktops, `removals
      ensures Valid()
      ensures removals == old(removals) + [Removal(id, old(desktops), windows, screens, views, sharedView, retained, displaced, managed)]
      ensures ok ==> desktops == Without(old(desktops), [id])
      ensures desktops == Without(old(desktops), [id]) || desktops == old(desktops)
      ensures faithful ==> ok
    {
      removals := removals + [Removal(id, desktops, windows, screens, views, sharedView, retained, displaced, managed)];
      var failed: bool, effective: bool := *, *;
      ok := faithful || !failed;
      if ok || effective {
        WithoutMembers(desktops, [id]);
        desktops := Without(desktops, [id]);
      }
    }

    /** Show a desktop on one output. */
    method ShowOn(id: DesktopId, output: Output) returns (ok: bool)
      requires Valid() && id < next
      modifies `views
      ensures Valid()
      ensures ok ==> views == old(views)[output := id]
      ensures views == old(views) || views == old(views)[output := id]
      ensures faithful ==> ok
    {
      var failed: bool, effective: bool := *, *;
      ok := faithful || !failed;
      if ok || effective {
        views := views[output := id];
      }
    }

    /** Show a desktop as the shared current one. */
    method ShowShared(id: DesktopId) returns (ok: bool)
      requires Valid() && id < next
      modifies `sharedView
      ensures Valid()
      ensures ok ==> sharedView == Some(id)
      ensures sharedView == old(sharedView) || sharedView == Some(id)
      ensures faithful ==> ok
    {
      var failed: bool, effective: bool := *, *;
      ok := faithful || !failed;
      if ok || effective {
        sharedView := Some(id);
      }
    }

    /** Others remove and add desktops; no desktop id comes back. */
    method DesktopsChange()
      requires Valid()
      modifies `desktops, `next
      ensures Valid() && next >= old(next)
      ensures forall id <- desktops :: id in old(desktops) || id >= old(next)
    {
      var more: nat, fewer: set<DesktopId> := *, *;
      desktops := Filter(id => id !in fewer, desktops);
      FilterNoDup(id => id !in fewer, old(desktops));
      FilterMembers(id => id !in fewer, old(desktops));
      for i := 0 to more
        invariant Valid() && next >= old(next)
        invariant forall id <- desktops :: id in old(desktops) || id >= old(next)
      {
        NoDupConcat(desktops, [next]);
        desktops, next := desktops + [next], next + 1;
      }
    }

    /** The user, other scripts and hardware between two calls: outputs, views, windows and
        desktops change at will, but no desktop id comes back. */
    method Environment()
      requires Valid()
      modifies this
      ensures Valid() && next >= old(next) && removals == old(removals)
      ensures forall id <- desktops :: id in old(desktops) || id >= old(next)
    {
      DesktopsChange();
      var outputs: seq<Output>, active: Option<Output> := *, *;
      screens, activeOutput := if NoRepeats(outputs) then outputs else [], active;
      activeScreen, activeDesktops := *, *;
      var shown: map<Output, DesktopId>, shared: Option<DesktopId>, present: seq<Window> := *, *, *;
      views := map output | output in shown && shown[output] < next :: shown[output];
      sharedView := if shared.Some? && shared.value < next then shared else None;
      windows := if forall id <- OccupiedBy(present) :: id < next then present else [];
    }
  }

  predicate NoRepeats(outputs: seq<Output>)
    ensures NoRepeats(outputs) <==> NoDup(outputs)
  {
    forall i, j | 0 <= i < j < |outputs| :: outputs[i] != outputs[j]
  }
}
