/**
 Identifiers, their order, and the sorting the source relies on.
 Go compares strings byte by byte; on UTF-8 text that is the order of the code points,
 which is the order of `char` used here.
 */
module Order {

  type Id = string

  /** `a <= b` in Go's string order. */
  predicate Le(a: string, b: string) {
    a == [] || (b != [] && (a[0] < b[0] || (a[0] == b[0] && Le(a[1..], b[1..]))))
  }

  /** `a` is a prefix of `b`, or at the first place where they differ it has the smaller character. */
  lemma {:induction false} LeIff(a: string, b: string)
    ensures Le(a, b) <==> a <= b || exists k: nat :: FirstDifference(a, b, k) && a[k] < b[k]
  {
    if a != [] && b != [] {
      var s, t := a[1..], b[1..];
      assert a == [a[0]] + s && b == [b[0]] + t;
      if a[0] == b[0] {
        LeIff(s, t);
        forall k: nat ensures FirstDifference(s, t, k) <==> FirstDifference(a, b, k + 1) {
          DifferenceShifts(a, b, k);
        }
        if k: nat :| FirstDifference(s, t, k) && s[k] < t[k] {
          assert FirstDifference(a, b, k + 1) && a[k + 1] < b[k + 1];
        }
        if k: nat :| FirstDifference(a, b, k) && a[k] < b[k] {
          assert FirstDifference(s, t, k - 1);
        }
      } else {
        assert FirstDifference(a, b, 0);
        assert forall k: nat | FirstDifference(a, b, k) :: k > 0 ==> a[..k][0] == b[..k][0];
      }
    }
  }

  predicate FirstDifference(a: string, b: string, k: nat) {
    k < |a| && k < |b| && a[..k] == b[..k] && a[k] != b[k]
  }

  lemma DifferenceShifts(a: string, b: string, k: nat)
    requires a != [] && b != [] && a[0] == b[0]
    ensures FirstDifference(a[1..], b[1..], k) <==> FirstDifference(a, b, k + 1)
  {
    if k + 1 <= |a| && k + 1 <= |b| {
      assert a[..k + 1] == [a[0]] + a[1..][..k] && b[..k + 1] == [b[0]] + b[1..][..k];
    }
  }

  lemma {:induction false} LeReflexive(a: string)
    ensures Le(a, a)
  {
    if a != [] {
      LeReflexive(a[1..]);
    }
  }

  lemma {:induction false} LeTotal(a: string, b: string)
    ensures Le(a, b) || Le(b, a)
  {
    if a != [] && b != [] {
      LeTotal(a[1..], b[1..]);
    }
  }

  lemma {:induction false} LeTransitive(a: string, b: string, c: string)
    requires Le(a, b) && Le(b, c)
    ensures Le(a, c)
  {
    if a != [] && a[0] == b[0] == c[0] {
      LeTransitive(a[1..], b[1..], c[1..]);
    }
  }

  lemma {:induction false} LeAntisymmetric(a: string, b: string)
    requires Le(a, b) && Le(b, a)
    ensures a == b
  {
    if a != [] && b != [] {
      LeAntisymmetric(a[1..], b[1..]);
      assert a == [a[0]] + a[1..] && b == [b[0]] + b[1..];
    }
  }

  predicate Sorted(s: seq<Id>) {
    forall i, j | 0 <= i < j < |s| :: Le(s[i], s[j])
  }

  predicate Distinct<T(==)>(s: seq<T>) {
    forall i, j | 0 <= i < j < |s| :: s[i] != s[j]
  }

  function Elems<T>(s: seq<T>): set<T> {
    set x | x in s
  }

  /** `s` with `x` placed before the first larger element. */
  function Insert(s: seq<Id>, x: Id): (r: seq<Id>)
    ensures multiset(r) == multiset(s) + multiset{x}
  {
    if s == [] then [x]
    else if Le(x, s[0]) then [x] + s
    else
      assert s == [s[0]] + s[1..];
      [s[0]] + Insert(s[1..], x)
  }

  lemma {:induction false} InsertSorted(s: seq<Id>, x: Id)
    requires Sorted(s)
    ensures Sorted(Insert(s, x))
  {
    if s == [] {
    } else if Le(x, s[0]) {
      forall j | 0 <= j < |s| ensures Le(x, s[j]) {
        if j > 0 { LeTransitive(x, s[0], s[j]); }
      }
    } else {
      InsertSorted(s[1..], x);
      LeTotal(x, s[0]);
      var t := Insert(s[1..], x);
      forall j | 0 <= j < |t| ensures Le(s[0], t[j]) {
        assert t[j] in multiset(t);
        assert t[j] == x || t[j] in s[1..];
      }
    }
  }

  /** `sort.Strings`. */
  function Sort(s: seq<Id>): (r: seq<Id>)
    ensures multiset(r) == multiset(s)
  {
    if s == [] then []
    else
      assert s == [s[0]] + s[1..];
      Insert(Sort(s[1..]), s[0])
  }

  lemma {:induction false} SortSorted(s: seq<Id>)
    ensures Sorted(Sort(s))
  {
    if s != [] {
      SortSorted(s[1..]);
      InsertSorted(Sort(s[1..]), s[0]);
    }
  }

  lemma {:induction false} DistinctCounts<T>(s: seq<T>)
    ensures Distinct(s) <==> forall x :: multiset(s)[x] <= 1
  {
    if s != [] {
      var t := s[1..];
      assert s == [s[0]] + t;
      DistinctCounts(t);
      assert Distinct(s) <==> s[0] !in t && Distinct(t) by {
        if s[0] !in t && Distinct(t) {
          assert forall j | 0 < j < |s| :: s[j] == t[j - 1];
        }
      }
      if Distinct(s) {
        assert forall x :: multiset(s)[x] == multiset(t)[x] + if x == s[0] then 1 else 0;
      } else if s[0] in t {
        assert multiset(s)[s[0]] >= 2;
      } else {
        var x :| multiset(t)[x] > 1;
        assert multiset(s)[x] > 1;
      }
    }
  }

  /** What the callers of `sort.Strings` use: same elements, no new repeats, in order. */
  lemma SortFacts(s: seq<Id>)
    ensures Sorted(Sort(s))
    ensures Elems(Sort(s)) == Elems(s)
    ensures |Sort(s)| == |s|
    ensures Distinct(s) ==> Distinct(Sort(s))
  {
    SortSorted(s);
    assert |multiset(Sort(s))| == |multiset(s)|;
    forall x ensures x in Sort(s) <==> x in s {
      assert x in Sort(s) <==> x in multiset(Sort(s));
    }
    DistinctCounts(s);
    DistinctCounts(Sort(s));
  }

  lemma {:induction false} DistinctSize<T>(s: seq<T>)
    requires Distinct(s)
    ensures |Elems(s)| == |s|
  {
    if s != [] {
      var n := |s| - 1;
      DistinctSize(s[..n]);
      assert Elems(s) == Elems(s[..n]) + {s[n]};
    }
  }

  lemma SubsetSize<T>(a: set<T>, b: set<T>)
    requires a <= b
    ensures |a| <= |b|
    ensures |a| == |b| ==> a == b
  {
    assert b == a + (b - a);
    assert |b| == |a| + |b - a|;
  }

  /** A sorted listing without repeats is determined by its elements. */
  lemma {:induction false} SortedListingUnique(s: seq<Id>, t: seq<Id>)
    requires Sorted(s) && Sorted(t) && Distinct(s) && Distinct(t)
    requires Elems(s) == Elems(t)
    ensures s == t
  {
    DistinctSize(s);
    DistinctSize(t);
    if s != [] {
      assert s[0] in Elems(t) && t[0] in Elems(s);
      LeReflexive(s[0]);
      assert Le(s[0], t[0]) && Le(t[0], s[0]);
      LeAntisymmetric(s[0], t[0]);
      assert Elems(s[1..]) == Elems(s) - {s[0]};
      assert Elems(t[1..]) == Elems(t) - {t[0]};
      SortedListingUnique(s[1..], t[1..]);
      assert s == [s[0]] + s[1..] && t == [t[0]] + t[1..];
    }
  }

  /** The keys of a Go map, in whatever order `range` happens to visit them. */
  method AnyOrder(keys: set<Id>) returns (s: seq<Id>)
    ensures Distinct(s) && forall x :: x in s <==> x in keys
  {
    s := [];
    var rest := keys;
    while rest != {}
      invariant rest <= keys && Distinct(s)
      invariant forall x :: x in s <==> x in keys - rest
      decreases rest
    {
      var x :| x in rest;
      assert forall i | 0 <= i < |s| :: s[i] in s;
      s := s + [x];
      rest := rest - {x};
    }
  }

  predicate Increasing(pos: seq<nat>) {
    forall a, b | 0 <= a < b < |pos| :: pos[a] < pos[b]
  }

  /** The keys of a map in some order. */
  ghost predicate Lists(order: seq<Id>, ids: set<Id>) {
    Distinct(order) && Elems(order) == ids
  }

  /** `a` comes somewhere before `b`. */
  ghost predicate ComesFirst(order: seq<Id>, a: Id, b: Id) {
    exists i, j :: 0 <= i < j < |order| && order[i] == a && order[j] == b
  }

  /** What is listed comes in that order. */
  ghost predicate ListedBy(order: seq<Id>, list: seq<Id>) {
    forall i, j | 0 <= i < j < |list| :: ComesFirst(order, list[i], list[j])
  }
}
