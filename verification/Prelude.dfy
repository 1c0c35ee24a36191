// Shared vocabulary: optional values, duplicate-free sequences and the one
// comparison sort used by the reconciler and by the geometry writer.

module Prelude {

  datatype Option<+T> = None | Some(value: T)

  /** No element occurs twice. */
  ghost predicate NoDup<T(!new)>(s: seq<T>) {
    forall i, j :: 0 <= i < j < |s| ==> s[i] != s[j]
  }

  /** Every element of s that p keeps, in order. */
  function Filter<T>(p: T -> bool, s: seq<T>): seq<T> {
    if s == [] then []
    else if p(s[0]) then [s[0]] + Filter(p, s[1..])
    else Filter(p, s[1..])
  }

  lemma {:induction false} FilterMembers<T(!new)>(p: T -> bool, s: seq<T>)
    ensures forall x :: x in Filter(p, s) <==> x in s && p(x)
    ensures |Filter(p, s)| <= |s|
  {
    if s != [] {
      FilterMembers(p, s[1..]);
    }
  }

  lemma {:induction false} FilterConcat<T>(p: T -> bool, a: seq<T>, b: seq<T>)
    ensures Filter(p, a + b) == Filter(p, a) + Filter(p, b)
  {
    if a == [] {
      assert a + b == b;
    } else {
      assert (a + b)[1..] == a[1..] + b;
      FilterConcat(p, a[1..], b);
    }
  }

  lemma {:induction false} FilterNoDup<T(!new)>(p: T -> bool, s: seq<T>)
    requires NoDup(s)
    ensures NoDup(Filter(p, s))
  {
    if s != [] {
      FilterNoDup(p, s[1..]);
      FilterMembers(p, s[1..]);
      assert s[0] !in s[1..];
    }
  }

  lemma {:induction false} FilterAll<T>(p: T -> bool, s: seq<T>)
    requires forall x <- s :: p(x)
    ensures Filter(p, s) == s
  {
    if s != [] {
      FilterAll(p, s[1..]);
    }
  }

  lemma {:induction false} CountOnce<T(!new)>(s: seq<T>, x: T)
    requires NoDup(s)
    ensures multiset(s)[x] == if x in s then 1 else 0
  {
    if s != [] {
      CountOnce(s[1..], x);
      assert s == [s[0]] + s[1..];
      assert s[0] !in s[1..];
    }
  }

  lemma CountTwice<T(!new)>(s: seq<T>, i: nat, j: nat)
    requires i < j < |s| && s[i] == s[j]
    ensures multiset(s)[s[i]] >= 2
  {
    assert s == s[..j] + s[j..];
    assert s[..j][i] == s[i] && s[j..][0] == s[i];
    assert multiset(s)[s[i]] == multiset(s[..j])[s[i]] + multiset(s[j..])[s[i]];
  }

  lemma SameElements<T(!new)>(a: seq<T>, b: seq<T>)
    requires NoDup(a) && NoDup(b) && forall x :: x in a <==> x in b
    ensures multiset(a) == multiset(b)
  {
    forall x
      ensures multiset(a)[x] == multiset(b)[x]
    {
      CountOnce(a, x);
      CountOnce(b, x);
    }
  }

  /** Different elements of one list, all found in another, are no more than that one has. */
  lemma {:induction false} Pigeonhole<T(!new)>(a: seq<T>, b: seq<T>)
    requires NoDup(a) && forall x <- a :: x in b
    ensures |a| <= |b|
  {
    if a != [] {
      assert a[0] in a && a[0] in b;
      var j :| 0 <= j < |b| && b[j] == a[0];
      var rest := b[..j] + b[j + 1..];
      forall x | x in a[1..]
        ensures x in rest
      {
        var i :| 0 < i < |a| && a[i] == x;
        assert a[0] != x && x in b;
      }
      Pigeonhole(a[1..], rest);
    }
  }

  lemma PermutedNoDup<T(!new)>(a: seq<T>, b: seq<T>)
    requires NoDup(a) && multiset(a) == multiset(b)
    ensures NoDup(b)
  {
    forall i, j | 0 <= i < j < |b|
      ensures b[i] != b[j]
    {
      CountOnce(a, b[i]);
      if b[i] == b[j] {
        CountTwice(b, i, j);
      }
    }
  }
}

/** Lexical order of strings, code unit by code unit. */
module Lexical {

  predicate Before(a: string, b: string) {
    if b == "" then false
    else if a == "" then true
    else a[0] < b[0] || (a[0] == b[0] && Before(a[1..], b[1..]))
  }

  lemma {:induction false} Irreflexive(a: string)
    ensures !Before(a, a)
  {
    if a != "" { Irreflexive(a[1..]); }
  }

  lemma {:induction false} Total(a: string, b: string)
    ensures a == b || Before(a, b) || Before(b, a)
  {
    if a != "" && b != "" && a[0] == b[0] {
      Total(a[1..], b[1..]);
      if a[1..] == b[1..] {
        assert a == [a[0]] + a[1..] == [b[0]] + b[1..] == b;
      }
    }
  }

  lemma {:induction false} Transitive(a: string, b: string, c: string)
    requires Before(a, b) && Before(b, c)
    ensures Before(a, c)
  {
    if a != "" && a[0] == b[0] && b[0] == c[0] {
      Transitive(a[1..], b[1..], c[1..]);
    }
  }

  lemma Weak(a: string, b: string, c: string)
    ensures Before(a, c) ==> Before(a, b) || Before(b, c)
    ensures Before(a, b) ==> !Before(b, a)
  {
    Irreflexive(a);
    Total(a, b);
    Total(b, c);
    if Before(a, c) && Before(c, b) {
      Transitive(a, c, b);
    }
    if Before(a, b) && Before(b, a) {
      Transitive(a, b, a);
    }
  }
}

/** Stable insertion sort over a strict weak order, and the fact that a
    separating order leaves a single sorted arrangement. */
module Sorting {

  /** Irreflexive, transitive, and with transitive incomparability. */
  ghost predicate StrictWeak<T(!new)>(less: (T, T) -> bool) {
    && (forall x :: !less(x, x))
    && (forall x, y, z :: less(x, y) && less(y, z) ==> less(x, z))
    && (forall x, y, z :: less(x, z) ==> less(x, y) || less(y, z))
  }

  /** No later element goes before an earlier one. */
  ghost predicate Sorted<T>(less: (T, T) -> bool, xs: seq<T>) {
    forall i, j :: 0 <= i < j < |xs| ==> !less(xs[j], xs[i])
  }

  /** Any two different elements are ordered one way or the other. */
  ghost predicate Separates<T>(less: (T, T) -> bool, xs: seq<T>) {
    forall x, y :: x in xs && y in xs && x != y ==> less(x, y) || less(y, x)
  }

  function Insert<T>(less: (T, T) -> bool, x: T, xs: seq<T>): seq<T> {
    if xs == [] || !less(xs[0], x) then [x] + xs
    else [xs[0]] + Insert(less, x, xs[1..])
  }

  function Sort<T>(less: (T, T) -> bool, xs: seq<T>): seq<T> {
    if xs == [] then [] else Insert(less, xs[0], Sort(less, xs[1..]))
  }

  lemma {:induction false} InsertPermutes<T>(less: (T, T) -> bool, x: T, xs: seq<T>)
    ensures multiset(Insert(less, x, xs)) == multiset{x} + multiset(xs)
  {
    if xs == [] || !less(xs[0], x) {
    } else {
      InsertPermutes(less, x, xs[1..]);
      assert xs == [xs[0]] + xs[1..];
    }
  }

  lemma {:induction false} SortPermutes<T>(less: (T, T) -> bool, xs: seq<T>)
    ensures multiset(Sort(less, xs)) == multiset(xs)
    ensures |Sort(less, xs)| == |xs|
    ensures forall x :: x in Sort(less, xs) <==> x in xs
  {
    if xs != [] {
      SortPermutes(less, xs[1..]);
      InsertPermutes(less, xs[0], Sort(less, xs[1..]));
      assert xs == [xs[0]] + xs[1..];
    }
    var s := Sort(less, xs);
    assert |s| == |multiset(s)| && |xs| == |multiset(xs)|;
    forall x
      ensures x in s <==> x in xs
    {
      assert x in s <==> x in multiset(s);
      assert x in xs <==> x in multiset(xs);
    }
  }

  lemma {:induction false} InsertSorted<T(!new)>(less: (T, T) -> bool, x: T, xs: seq<T>)
    requires StrictWeak(less) && Sorted(less, xs)
    ensures Sorted(less, Insert(less, x, xs))
  {
    if xs == [] {
    } else if !less(xs[0], x) {
      forall j | 0 <= j < |xs|
        ensures !less(xs[j], x)
      {
        assert j > 0 ==> !less(xs[j], xs[0]);
      }
    } else {
      var rest := Insert(less, x, xs[1..]);
      InsertSorted(less, x, xs[1..]);
      InsertPermutes(less, x, xs[1..]);
      forall j | 0 <= j < |rest|
        ensures !less(rest[j], xs[0])
      {
        assert rest[j] in multiset(rest);
        assert rest[j] == x || rest[j] in xs[1..];
      }
    }
  }

  lemma {:induction false} SortSorted<T(!new)>(less: (T, T) -> bool, xs: seq<T>)
    requires StrictWeak(less)
    ensures Sorted(less, Sort(less, xs))
  {
    if xs != [] {
      SortSorted(less, xs[1..]);
      InsertSorted(less, xs[0], Sort(less, xs[1..]));
    }
  }

  /** Two sorted arrangements of the same elements begin alike. */
  lemma SortedHead<T>(less: (T, T) -> bool, a: seq<T>, b: seq<T>)
    requires Sorted(less, a) && Sorted(less, b) && Separates(less, a)
    requires a != [] && b != [] && a[0] in b && b[0] in a
    ensures a[0] == b[0]
  {
    var i :| 0 <= i < |a| && a[i] == b[0];
    var j :| 0 <= j < |b| && b[j] == a[0];
    if i > 0 && j > 0 {
      assert !less(a[i], a[0]) && !less(b[j], b[0]);
    }
  }

  lemma SortedTail<T>(less: (T, T) -> bool, a: seq<T>)
    requires a != [] && Sorted(less, a)
    ensures Sorted(less, a[1..])
    ensures Separates(less, a) ==> Separates(less, a[1..])
  {
  }

  lemma TailPermutes<T>(a: seq<T>, b: seq<T>)
    requires a != [] && b != [] && a[0] == b[0] && multiset(a) == multiset(b)
    ensures multiset(a[1..]) == multiset(b[1..])
  {
    assert a == [a[0]] + a[1..] && b == [b[0]] + b[1..];
    assert multiset(a[1..]) == multiset(a) - multiset{a[0]};
    assert multiset(b[1..]) == multiset(b) - multiset{b[0]};
  }

  /** Two sorted arrangements of the same elements are the same list. */
  lemma {:induction false} SortedUnique<T>(less: (T, T) -> bool, a: seq<T>, b: seq<T>)
    requires Sorted(less, a) && Sorted(less, b) && Separates(less, a)
    requires multiset(a) == multiset(b)
    ensures a == b
  {
    hide Sorted, Separates;
    assert |a| == |multiset(a)| == |multiset(b)| == |b|;
    if a != [] {
      assert a[0] in multiset(b) && b[0] in multiset(a);
      SortedHead(less, a, b);
      SortedTail(less, a);
      SortedTail(less, b);
      TailPermutes(a, b);
      SortedUnique(less, a[1..], b[1..]);
      assert a == [a[0]] + a[1..] && b == [b[0]] + b[1..];
    }
  }

  /** The result of a separating sort does not depend on the input order. */
  lemma SortCanonical<T(!new)>(less: (T, T) -> bool, xs: seq<T>, ys: seq<T>)
    requires StrictWeak(less) && Separates(less, xs)
    requires multiset(xs) == multiset(ys)
    ensures Sort(less, xs) == Sort(less, ys)
  {
    SortPermutes(less, xs);
    SortPermutes(less, ys);
    SortSorted(less, xs);
    SortSorted(less, ys);
    SortedUnique(less, Sort(less, xs), Sort(less, ys));
  }
}
