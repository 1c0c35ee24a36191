// The canonical order of direct geometry writes: growing windows first.

module GeometryOrder {
  import opened Prelude
  import Lexical
  import Sorting

  datatype Rect = Rect(x: int, y: int, w: int, h: int)
  datatype Entry = Entry(window: string, rect: Rect)
  datatype Scored = Scored(entry: Entry, delta: int)

  /** A layout: the rectangle of each known window. */
  type Layout = map<string, Rect>

  function Area(r: Rect): int { r.w * r.h }

  /** A window whose rectangle is unknown or different. */
  predicate Changed(old_: Layout, e: Entry) {
    e.window !in old_ || old_[e.window] != e.rect
  }

  function Growth(old_: Layout, e: Entry): int {
    if e.window in old_ then Area(e.rect) - Area(old_[e.window]) else Area(e.rect)
  }

  function Score(old_: Layout, entries: seq<Entry>): seq<Scored> {
    seq(|entries|, i requires 0 <= i < |entries| => Scored(entries[i], Growth(old_, entries[i])))
  }

  /** Larger growth first, then window ids in lexical order. */
  predicate Before(a: Scored, b: Scored) {
    if b.delta != a.delta then b.delta < a.delta
    else Lexical.Before(a.entry.window, b.entry.window)
  }

  function Entries(scored: seq<Scored>): seq<Entry> {
    seq(|scored|, i requires 0 <= i < |scored| => scored[i].entry)
  }

  function OrderGeometryWrites(old_: Layout, desired: seq<Entry>): seq<Entry> {
    Entries(Sorting.Sort(Before, Score(old_, Filter((e: Entry) => Changed(old_, e), desired))))
  }

  /** Applying writes one after another. */
  function Apply(layout: Layout, writes: seq<Entry>): Layout
    decreases |writes|
  {
    if writes == [] then layout
    else Apply(layout[writes[0].window := writes[0].rect], writes[1..])
  }

  ghost predicate DistinctWindows(entries: seq<Entry>) {
    forall i, j :: 0 <= i < j < |entries| ==> entries[i].window != entries[j].window
  }

  // ---- the comparison ------------------------------------------------------------

  lemma BeforeIsStrictWeak()
    ensures Sorting.StrictWeak(Before)
  {
    forall x, y, z
      ensures !Before(x, x)
      ensures Before(x, y) && Before(y, z) ==> Before(x, z)
      ensures Before(x, z) ==> Before(x, y) || Before(y, z)
    {
      var a, b, c := x.entry.window, y.entry.window, z.entry.window;
      Lexical.Irreflexive(a);
      Lexical.Weak(a, b, c);
      if Lexical.Before(a, b) && Lexical.Before(b, c) { Lexical.Transitive(a, b, c); }
    }
  }

  lemma BeforeSeparates(scored: seq<Scored>)
    requires forall s, t :: s in scored && t in scored && s != t ==> s.entry.window != t.entry.window
    ensures Sorting.Separates(Before, scored)
  {
    forall s, t | s in scored && t in scored && s != t
      ensures Before(s, t) || Before(t, s)
    {
      Lexical.Total(s.entry.window, t.entry.window);
    }
  }

  /** The scored list before sorting. */
  function Pending(old_: Layout, desired: seq<Entry>): seq<Scored> {
    Score(old_, Filter((e: Entry) => Changed(old_, e), desired))
  }

  lemma PendingMembers(old_: Layout, desired: seq<Entry>)
    ensures forall s :: s in Pending(old_, desired) <==>
              s.entry in desired && Changed(old_, s.entry) && s.delta == Growth(old_, s.entry)
  {
    var changed := Filter((e: Entry) => Changed(old_, e), desired);
    FilterMembers((e: Entry) => Changed(old_, e), desired);
    forall s
      ensures s in Pending(old_, desired) <==> s.entry in desired && Changed(old_, s.entry) && s.delta == Growth(old_, s.entry)
    {
      if s.entry in changed {
        var i :| 0 <= i < |changed| && changed[i] == s.entry;
        assert Pending(old_, desired)[i] == Scored(s.entry, Growth(old_, s.entry));
      }
    }
  }

  lemma PendingNoDup(old_: Layout, desired: seq<Entry>)
    requires DistinctWindows(desired)
    ensures NoDup(Pending(old_, desired))
    ensures forall s, t :: s in Pending(old_, desired) && t in Pending(old_, desired) && s != t ==> s.entry.window != t.entry.window
  {
    assert NoDup(desired);
    FilterNoDup((e: Entry) => Changed(old_, e), desired);
    PendingMembers(old_, desired);
    forall s, t | s in Pending(old_, desired) && t in Pending(old_, desired) && s != t
      ensures s.entry.window != t.entry.window
    {
      var i :| 0 <= i < |desired| && desired[i] == s.entry;
      var j :| 0 <= j < |desired| && desired[j] == t.entry;
      assert i < j || j < i;
    }
  }

  // ---- main results ----------------------------------------------------------------

  /** Growth never increases along the list, and equal growth is in lexical id order. */
  ghost predicate GrowFirst(old_: Layout, writes: seq<Entry>) {
    forall i, j :: 0 <= i < j < |writes| ==>
      Gained(old_, writes[i]) > Gained(old_, writes[j]) ||
      (Gained(old_, writes[i]) == Gained(old_, writes[j]) && Lexical.Before(writes[i].window, writes[j].window))
  }

  /** How much larger the window becomes: width by height, less what it covers where that is known. */
  ghost function Gained(old_: Layout, e: Entry): int {
    e.rect.w * e.rect.h - (if e.window in old_ then old_[e.window].w * old_[e.window].h else 0)
  }

  lemma GrowthIsGained(old_: Layout, e: Entry)
    ensures Growth(old_, e) == Gained(old_, e)
  {
  }

  /** Sorting keeps the scored windows, once each, and puts them in strict canonical order. */
  lemma SortedPending(old_: Layout, desired: seq<Entry>)
    requires DistinctWindows(desired)
    ensures var sorted := Sorting.Sort(Before, Pending(old_, desired));
            && (forall s :: s in sorted <==> s in Pending(old_, desired))
            && (forall i, j :: 0 <= i < j < |sorted| ==>
                  sorted[i].entry.window != sorted[j].entry.window && Before(sorted[i], sorted[j]))
  {
    var pending := Pending(old_, desired);
    var sorted := Sorting.Sort(Before, pending);
    PendingNoDup(old_, desired);
    BeforeIsStrictWeak();
    Sorting.SortPermutes(Before, pending);
    Sorting.SortSorted(Before, pending);
    BeforeSeparates(pending);
    PermutedNoDup(pending, sorted);
    forall i, j | 0 <= i < j < |sorted|
      ensures sorted[i].entry.window != sorted[j].entry.window && Before(sorted[i], sorted[j])
    {
      assert sorted[i] in sorted && sorted[j] in sorted && sorted[i] != sorted[j];
    }
  }

  /** The list is exactly the changed windows, once each, in canonical order. */
  lemma WritesAreChangedWindowsInOrder(old_: Layout, desired: seq<Entry>)
    requires DistinctWindows(desired)
    ensures var writes := OrderGeometryWrites(old_, desired);
            && (forall e :: e in writes <==> e in desired && Changed(old_, e))
            && DistinctWindows(writes)
            && GrowFirst(old_, writes)
  {
    hide Growth, Gained, Lexical.Before, Changed;
    var pending := Pending(old_, desired);
    var sorted := Sorting.Sort(Before, pending);
    var writes := OrderGeometryWrites(old_, desired);
    PendingMembers(old_, desired);
    SortedPending(old_, desired);
    forall e
      ensures e in writes <==> e in desired && Changed(old_, e)
    {
      if e in desired && Changed(old_, e) {
        var s := Scored(e, Growth(old_, e));
        var i :| 0 <= i < |sorted| && sorted[i] == s;
        assert writes[i] == e;
      }
      if e in writes {
        var i :| 0 <= i < |writes| && writes[i] == e;
        assert sorted[i] in sorted;
      }
    }
    forall i, j | 0 <= i < j < |writes|
      ensures Gained(old_, writes[i]) > Gained(old_, writes[j]) ||
              (Gained(old_, writes[i]) == Gained(old_, writes[j]) && Lexical.Before(writes[i].window, writes[j].window))
    {
      GrowthIsGained(old_, writes[i]);
      GrowthIsGained(old_, writes[j]);
      assert sorted[i] in sorted && sorted[j] in sorted && Before(sorted[i], sorted[j]);
    }
  }

  /** The write list is the same for every order of the desired windows. */
  lemma WritesIgnoreInputOrder(old_: Layout, desired: seq<Entry>, shuffled: seq<Entry>)
    requires DistinctWindows(desired) && DistinctWindows(shuffled)
    requires forall e :: e in desired <==> e in shuffled
    ensures OrderGeometryWrites(old_, desired) == OrderGeometryWrites(old_, shuffled)
  {
    var a, b := Pending(old_, desired), Pending(old_, shuffled);
    PendingMembers(old_, desired);
    PendingMembers(old_, shuffled);
    PendingNoDup(old_, desired);
    PendingNoDup(old_, shuffled);
    SameElements(a, b);
    BeforeIsStrictWeak();
    BeforeSeparates(a);
    Sorting.SortCanonical(Before, a, b);
  }

  lemma {:induction false} ApplyReaches(layout: Layout, writes: seq<Entry>, window: string)
    requires DistinctWindows(writes)
    ensures (forall e <- writes :: e.window != window) ==>
              (window in Apply(layout, writes) <==> window in layout) &&
              (window in layout ==> Apply(layout, writes)[window] == layout[window])
    ensures forall e <- writes :: e.window == window ==> window in Apply(layout, writes) && Apply(layout, writes)[window] == e.rect
    decreases |writes|
  {
    if writes != [] {
      var next := layout[writes[0].window := writes[0].rect];
      ApplyReaches(next, writes[1..], window);
      assert writes == [writes[0]] + writes[1..];
    }
  }

  /** Written in sequence, the list turns the old layout into the desired one on every
      desired window and leaves every other window where it was. */
  lemma WritesReachDesired(old_: Layout, desired: seq<Entry>)
    requires DistinctWindows(desired)
    ensures var end := Apply(old_, OrderGeometryWrites(old_, desired));
            && (forall e <- desired :: e.window in end && end[e.window] == e.rect)
            && (forall w :: (forall e <- desired :: e.window != w) ==>
                  (w in end <==> w in old_) && (w in old_ ==> end[w] == old_[w]))
  {
    var writes := OrderGeometryWrites(old_, desired);
    var end := Apply(old_, writes);
    WritesAreChangedWindowsInOrder(old_, desired);
    forall e | e in desired
      ensures e.window in end && end[e.window] == e.rect
    {
      ApplyReaches(old_, writes, e.window);
      if !Changed(old_, e) {
        forall f | f in writes
          ensures f.window != e.window
        {
          if f.window == e.window {
            OnlyEntry(desired, e, f);
          }
        }
      }
    }
    forall w | forall e <- desired :: e.window != w
      ensures (w in end <==> w in old_) && (w in old_ ==> end[w] == old_[w])
    {
      ApplyReaches(old_, writes, w);
    }
  }

  lemma OnlyEntry(desired: seq<Entry>, e: Entry, f: Entry)
    requires DistinctWindows(desired) && e in desired && f in desired && e.window == f.window
    ensures e == f
  {
  }
}
