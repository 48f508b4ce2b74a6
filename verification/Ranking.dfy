/** Listings of a finite set in a strict order, and their first rows: ORDER BY with LIMIT. */
module Ranking {
  import opened Prelude

  /** On the members of s, `lt` is a strict total order. */
  ghost predicate StrictOn<T>(lt: (T, T) -> bool, s: set<T>) {
    && (forall a :: a in s ==> !lt(a, a))
    && (forall a, b :: a in s && b in s && a != b ==> lt(a, b) || lt(b, a))
    && (forall a, b, c :: a in s && b in s && c in s && lt(a, b) && lt(b, c) ==> lt(a, c))
  }

  ghost predicate Ascending<T>(lt: (T, T) -> bool, rows: seq<T>) {
    forall i, j :: 0 <= i < j < |rows| ==> lt(rows[i], rows[j])
  }

  /** L is the set s in order. */
  ghost predicate Listing<T>(lt: (T, T) -> bool, s: set<T>, L: seq<T>) {
    Ascending(lt, L) && (forall i :: 0 <= i < |L| ==> L[i] in s) && (forall x :: x in s ==> x in L)
  }

  /** The first n rows of s in order. */
  ghost predicate Top<T>(lt: (T, T) -> bool, s: set<T>, n: nat, rows: seq<T>) {
    && Ascending(lt, rows)
    && |rows| == (if n <= |s| then n else |s|)
    && (forall i :: 0 <= i < |rows| ==> rows[i] in s)
    && (forall i, x :: 0 <= i < |rows| && x in s && x !in rows ==> lt(rows[i], x))
  }

  method First<T(==)>(lt: (T, T) -> bool, s: set<T>) returns (first: T)
    requires StrictOn(lt, s) && s != {}
    ensures first in s && forall x :: x in s && x != first ==> lt(first, x)
  {
    first :| first in s;
    var rest := s - {first};
    while rest != {}
      invariant first in s && rest <= s
      invariant forall x :: x in s && x !in rest && x != first ==> lt(first, x)
      decreases rest
    {
      var r :| r in rest;
      if lt(r, first) { first := r; }
      rest := rest - {r};
    }
  }

  /** ORDER BY ... LIMIT n. */
  method Fetch<T(==)>(lt: (T, T) -> bool, s: set<T>, n: nat) returns (rows: seq<T>)
    requires StrictOn(lt, s)
    ensures Top(lt, s, n, rows)
  {
    rows := [];
    var rest := s;
    while rest != {} && |rows| < n
      invariant rest <= s && |rows| + |rest| == |s| && |rows| <= n
      invariant forall x :: x in s ==> (x in rows <==> x !in rest)
      invariant forall i :: 0 <= i < |rows| ==> rows[i] in s && rows[i] !in rest
      invariant forall i, x :: 0 <= i < |rows| && x in rest ==> lt(rows[i], x)
      invariant Ascending(lt, rows)
      decreases rest
    {
      var first := First(lt, rest);
      rows := rows + [first];
      rest := rest - {first};
    }
  }

  lemma TopShorter<T>(lt: (T, T) -> bool, s: set<T>, n: nat, rows: seq<T>)
    requires Top(lt, s, n + 1, rows)
    ensures Top(lt, s, n, if |rows| > n then rows[..n] else rows)
  {
  }

  lemma ListingFacts<T>(lt: (T, T) -> bool, s: set<T>, L: seq<T>)
    requires StrictOn(lt, s) && Listing(lt, s, L)
    ensures |L| == |s| && Distinct(L)
    ensures forall i, j :: 0 <= i < |L| && 0 <= j < |L| ==> (lt(L[i], L[j]) <==> i < j)
  {
    forall i, j | 0 <= i < |L| && 0 <= j < |L| ensures lt(L[i], L[j]) <==> i < j {
      assert L[i] in s && L[j] in s;
    }
    DistinctCardinality(L);
    assert (set v | v in L) == s;
  }

  /** Position by position, the first rows are those of the listing. */
  lemma {:induction false} TopAgrees<T>(lt: (T, T) -> bool, s: set<T>, n: nat, rows: seq<T>, L: seq<T>, i: nat)
    requires StrictOn(lt, s) && Top(lt, s, n, rows) && Listing(lt, s, L) && i < |rows| && i < |L|
    ensures rows[i] == L[i]
    decreases i
  {
    forall j | 0 <= j < i ensures rows[j] == L[j] { TopAgrees(lt, s, n, rows, L, j); }
    ListingFacts(lt, s, L);
    var k :| 0 <= k < |L| && L[k] == rows[i];
    if L[i] in rows {
      var m :| 0 <= m < |rows| && rows[m] == L[i];
    }
  }

  lemma TopIsPrefix<T>(lt: (T, T) -> bool, s: set<T>, n: nat, rows: seq<T>, L: seq<T>)
    requires StrictOn(lt, s) && Top(lt, s, n, rows) && Listing(lt, s, L)
    ensures rows == L[..if n <= |L| then n else |L|]
  {
    ListingFacts(lt, s, L);
    forall i | 0 <= i < |rows| ensures rows[i] == L[i] { TopAgrees(lt, s, n, rows, L, i); }
  }

  lemma {:induction false} Smallest<T>(lt: (T, T) -> bool, s: set<T>) returns (first: T)
    requires StrictOn(lt, s) && s != {}
    ensures first in s && forall x :: x in s && x != first ==> lt(first, x)
    decreases |s|
  {
    first :| first in s;
    if s != {first} {
      var other := Smallest(lt, s - {first});
      if lt(other, first) { first := other; }
    }
  }

  /** Every finite set has a listing. */
  lemma {:induction false} ListingExists<T>(lt: (T, T) -> bool, s: set<T>) returns (L: seq<T>)
    requires StrictOn(lt, s)
    ensures Listing(lt, s, L)
    decreases |s|
  {
    if s == {} {
      L := [];
    } else {
      var first := Smallest(lt, s);
      var rest := ListingExists(lt, s - {first});
      L := [first] + rest;
    }
  }
}
