/** The order in which grouping visits its groups: Python's comparison of
    strings (lexicographic by character code) lifted to triples of strings,
    and the sort of a list of such triples. */
module Ordering {

  /** `a` sorts strictly before `b`: at the first position where they differ
      `a` has the smaller character, or `a` is a proper prefix of `b`. */
  predicate StringLess(a: string, b: string) {
    if a == [] then b != []
    else if b == [] then false
    else if a[0] != b[0] then a[0] < b[0]
    else StringLess(a[1..], b[1..])
  }

  lemma {:induction false} StringLessIrreflexive(a: string)
    ensures !StringLess(a, a)
  {
    if a != [] {
      StringLessIrreflexive(a[1..]);
    }
  }

  lemma {:induction false} StringLessTransitive(a: string, b: string, c: string)
    requires StringLess(a, b) && StringLess(b, c)
    ensures StringLess(a, c)
  {
    if a != [] && a[0] == b[0] && b[0] == c[0] {
      StringLessTransitive(a[1..], b[1..], c[1..]);
    }
  }

  /** Any two different strings are ordered one way or the other. */
  lemma {:induction false} StringLessTotal(a: string, b: string)
    ensures a == b || StringLess(a, b) || StringLess(b, a)
  {
    if a != [] && b != [] && a[0] == b[0] {
      StringLessTotal(a[1..], b[1..]);
      if a[1..] == b[1..] {
        assert a == [a[0]] + a[1..] && b == [b[0]] + b[1..];
      }
    }
  }

  lemma {:induction false} StringLessAsymmetric(a: string, b: string)
    requires StringLess(a, b)
    ensures !StringLess(b, a)
  {
    if a != [] && a[0] == b[0] {
      StringLessAsymmetric(a[1..], b[1..]);
    }
  }

  /** The order is textual, not numeric: group 10 sorts before group 2. */
  lemma StringLessExample()
    ensures StringLess("G10_mutant_000", "G2_mutant_000")
    ensures StringLess("G1", "G10") && StringLess("G1_mutant_000", "Group1_mutant_000")
  {
  }

  type Triple = (string, string, string)

  /** Tuples compare component by component, the first difference deciding. */
  predicate TripleLess(x: Triple, y: Triple) {
    || StringLess(x.0, y.0)
    || (x.0 == y.0 && StringLess(x.1, y.1))
    || (x.0 == y.0 && x.1 == y.1 && StringLess(x.2, y.2))
  }

  /** The tuple order is a strict total order. */
  lemma TripleLessOrder(x: Triple, y: Triple, z: Triple)
    ensures !TripleLess(x, x)
    ensures TripleLess(x, y) ==> !TripleLess(y, x)
    ensures x == y || TripleLess(x, y) || TripleLess(y, x)
    ensures TripleLess(x, y) && TripleLess(y, z) ==> TripleLess(x, z)
  {
    StringLessIrreflexive(x.0);
    StringLessIrreflexive(x.1);
    StringLessIrreflexive(x.2);
    StringLessTotal(x.0, y.0);
    StringLessTotal(x.1, y.1);
    StringLessTotal(x.2, y.2);
    if StringLess(x.0, y.0) { StringLessAsymmetric(x.0, y.0); }
    if StringLess(x.1, y.1) { StringLessAsymmetric(x.1, y.1); }
    if StringLess(x.2, y.2) { StringLessAsymmetric(x.2, y.2); }
    if TripleLess(x, y) && TripleLess(y, z) {
      if StringLess(x.0, y.0) && StringLess(y.0, z.0) { StringLessTransitive(x.0, y.0, z.0); }
      if StringLess(x.1, y.1) && StringLess(y.1, z.1) { StringLessTransitive(x.1, y.1, z.1); }
      if StringLess(x.2, y.2) && StringLess(y.2, z.2) { StringLessTransitive(x.2, y.2, z.2); }
    }
  }

  /** No element sorts before an earlier one. */
  predicate Sorted(s: seq<Triple>) {
    forall i, j :: 0 <= i < j < |s| ==> !TripleLess(s[j], s[i])
  }

  /** `x` placed before the first element that does not sort before it. */
  function Insert(x: Triple, s: seq<Triple>): (r: seq<Triple>)
    ensures |r| == |s| + 1
  {
    if s == [] || !TripleLess(s[0], x) then [x] + s
    else [s[0]] + Insert(x, s[1..])
  }

  lemma {:induction false} InsertPermutes(x: Triple, s: seq<Triple>)
    ensures multiset(Insert(x, s)) == multiset(s) + multiset{x}
  {
    if s != [] && TripleLess(s[0], x) {
      InsertPermutes(x, s[1..]);
      assert s == [s[0]] + s[1..];
    }
  }

  lemma {:induction false} InsertSorted(x: Triple, s: seq<Triple>)
    requires Sorted(s)
    ensures Sorted(Insert(x, s))
  {
    if s != [] {
      if TripleLess(s[0], x) {
        var rest := s[1..];
        assert Sorted(rest) by {
          assert forall i :: 0 <= i < |rest| ==> rest[i] == s[i + 1];
        }
        InsertSorted(x, rest);
        TripleLessOrder(s[0], x, s[0]);
        assert forall i :: 0 <= i < |rest| ==> !TripleLess(rest[i], s[0]) by {
          assert forall i :: 0 <= i < |rest| ==> rest[i] == s[i + 1];
        }
        InsertAbove(x, rest, s[0]);
        var r := Insert(x, rest);
        assert Insert(x, s) == [s[0]] + r;
        forall i, j | 0 <= i < j < |Insert(x, s)| ensures !TripleLess(Insert(x, s)[j], Insert(x, s)[i]) {
          if i > 0 {
            assert Insert(x, s)[i] == r[i - 1] && Insert(x, s)[j] == r[j - 1];
          } else {
            assert Insert(x, s)[j] == r[j - 1];
          }
        }
      } else {
        forall j | 0 < j < |s| ensures !TripleLess(s[j], x) {
          TripleLessOrder(s[j], s[0], x);
          TripleLessOrder(x, s[0], s[j]);
          TripleLessOrder(s[0], s[j], x);
        }
        forall i, j | 0 <= i < j < |[x] + s| ensures !TripleLess(([x] + s)[j], ([x] + s)[i]) {
          if i > 0 {
            assert ([x] + s)[i] == s[i - 1] && ([x] + s)[j] == s[j - 1];
          }
        }
      }
    }
  }

  /** Every element of `Insert(x, s)` is not below a triple `y` that `x` and
      the elements of `s` are not below. */
  lemma {:induction false} InsertAbove(x: Triple, s: seq<Triple>, y: Triple)
    requires !TripleLess(x, y)
    requires forall i :: 0 <= i < |s| ==> !TripleLess(s[i], y)
    ensures forall i :: 0 <= i < |Insert(x, s)| ==> !TripleLess(Insert(x, s)[i], y)
  {
    if s != [] && TripleLess(s[0], x) {
      InsertAbove(x, s[1..], y);
      assert forall i :: 0 <= i < |s[1..]| ==> s[1..][i] == s[i + 1];
    }
  }

  /** The triples in sorted order. */
  function SortTriples(s: seq<Triple>): (r: seq<Triple>)
    ensures |r| == |s|
  {
    if s == [] then [] else Insert(s[0], SortTriples(s[1..]))
  }

  /** Sorting rearranges the triples and puts them in order. */
  lemma {:induction false} SortTriplesSpec(s: seq<Triple>)
    ensures multiset(SortTriples(s)) == multiset(s)
    ensures Sorted(SortTriples(s))
  {
    if s != [] {
      SortTriplesSpec(s[1..]);
      InsertPermutes(s[0], SortTriples(s[1..]));
      InsertSorted(s[0], SortTriples(s[1..]));
      assert s == [s[0]] + s[1..];
    }
  }

  /** Sorting distinct triples gives a strictly increasing list of the same
      triples. */
  lemma SortDistinct(s: seq<Triple>)
    requires forall i, j :: 0 <= i < j < |s| ==> s[i] != s[j]
    ensures forall x :: x in SortTriples(s) <==> x in s
    ensures forall i, j :: 0 <= i < j < |SortTriples(s)| ==> TripleLess(SortTriples(s)[i], SortTriples(s)[j])
  {
    SortTriplesSpec(s);
    var r := SortTriples(s);
    assert forall x :: x in r <==> x in multiset(r);
    assert forall x :: x in s <==> x in multiset(s);
    forall i, j | 0 <= i < j < |r| ensures TripleLess(r[i], r[j]) {
      DistinctCount(s, r, i, j);
      TripleLessOrder(r[i], r[j], r[i]);
    }
  }

  /** A permutation of a list without repetitions has none either. */
  lemma DistinctCount(s: seq<Triple>, r: seq<Triple>, i: nat, j: nat)
    requires forall a, b :: 0 <= a < b < |s| ==> s[a] != s[b]
    requires multiset(r) == multiset(s)
    requires i < j < |r|
    ensures r[i] != r[j]
  {
    if r[i] == r[j] {
      var x := r[i];
      assert r == r[..j] + [x] + r[j + 1..];
      assert x in r[..j] by {
        assert r[..j][i] == x;
      }
      assert multiset(r)[x] >= 2 by {
        assert multiset(r) == multiset(r[..j]) + multiset{x} + multiset(r[j + 1..]);
      }
      MultisetAtMostOnce(s, x);
    }
  }

  /** In a list without repetitions every element occurs at most once. */
  lemma {:induction false} MultisetAtMostOnce(s: seq<Triple>, x: Triple)
    requires forall a, b :: 0 <= a < b < |s| ==> s[a] != s[b]
    ensures multiset(s)[x] <= 1
  {
    if s != [] {
      var rest := s[1..];
      assert forall a, b :: 0 <= a < b < |rest| ==> rest[a] != rest[b] by {
        assert forall a :: 0 <= a < |rest| ==> rest[a] == s[a + 1];
      }
      MultisetAtMostOnce(rest, x);
      assert s == [s[0]] + rest;
      if s[0] == x {
        assert x !in rest by {
          assert forall a :: 0 <= a < |rest| ==> rest[a] == s[a + 1];
        }
      }
    }
  }
}
