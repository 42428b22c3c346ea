/** Go's string ordering and `sort.Strings`. Strings are sequences of code
    points compared lexicographically, which for UTF-8 text is the byte
    order Go compares by. */
module Strings {

  /** `a < b` for Go strings. */
  predicate Less(a: string, b: string)
  {
    if |a| == 0 then |b| > 0
    else if |b| == 0 then false
    else if a[0] != b[0] then a[0] < b[0]
    else Less(a[1..], b[1..])
  }

  lemma {:induction false} LessIrreflexive(a: string)
    ensures !Less(a, a)
  {
    if |a| > 0 {
      LessIrreflexive(a[1..]);
    }
  }

  lemma {:induction false} LessAsymmetric(a: string, b: string)
    ensures Less(a, b) ==> !Less(b, a)
  {
    if |a| > 0 && |b| > 0 && a[0] == b[0] {
      LessAsymmetric(a[1..], b[1..]);
    }
  }

  lemma {:induction false} LessTransitive(a: string, b: string, c: string)
    ensures Less(a, b) && Less(b, c) ==> Less(a, c)
  {
    if |a| > 0 && |b| > 0 && |c| > 0 && a[0] == b[0] == c[0] {
      LessTransitive(a[1..], b[1..], c[1..]);
    }
  }

  /** Two different strings are ordered one way or the other. */
  lemma {:induction false} LessTotal(a: string, b: string)
    ensures a != b ==> Less(a, b) || Less(b, a)
  {
    if |a| > 0 && |b| > 0 && a[0] == b[0] {
      LessTotal(a[1..], b[1..]);
      if a[1..] == b[1..] {
        assert a == [a[0]] + a[1..] && b == [b[0]] + b[1..];
      }
    }
  }

  /** No later element is smaller than an earlier one. */
  ghost predicate Sorted(s: seq<string>)
  {
    forall i, j :: 0 <= i < j < |s| ==> !Less(s[j], s[i])
  }

  /** An element not above the head of a sorted sequence may go in front of it. */
  lemma SortedCons(x: string, s: seq<string>)
    requires Sorted(s) && s != [] && !Less(s[0], x)
    ensures Sorted([x] + s)
  {
    forall j | 0 <= j < |s| ensures !Less(s[j], x) {
      LessTotal(s[j], s[0]);
      LessTransitive(s[0], s[j], x);
      LessTransitive(x, s[0], s[j]);
      LessIrreflexive(x);
    }
  }

  /** The head of a sorted sequence stays in front when an element above it
      is inserted into the rest. */
  lemma SortedKeepsHead(x: string, s: seq<string>, t: seq<string>)
    requires Sorted(s) && s != [] && Less(s[0], x)
    requires Sorted(t) && multiset(t) == multiset(s[1..]) + multiset{x}
    ensures Sorted([s[0]] + t)
  {
    forall j | 0 <= j < |t| ensures !Less(t[j], s[0]) {
      assert t[j] in multiset(t);
      if t[j] == x {
        LessAsymmetric(s[0], x);
      } else {
        assert t[j] in multiset(s[1..]);
        var k :| 0 <= k < |s[1..]| && s[1..][k] == t[j];
        assert s[k + 1] == t[j];
      }
    }
  }

  /** Inserts `x` before the first element that is not smaller than it. */
  function Insert(x: string, s: seq<string>): (r: seq<string>)
    requires Sorted(s)
    ensures Sorted(r)
    ensures multiset(r) == multiset(s) + multiset{x}
  {
    if s == [] then [x]
    else if !Less(s[0], x) then
      SortedCons(x, s);
      [x] + s
    else
      var t := Insert(x, s[1..]);
      SortedKeepsHead(x, s, t);
      assert s == [s[0]] + s[1..];
      [s[0]] + t
  }

  /** `sort.Strings`, by insertion: a sorted permutation of its input. */
  function SortStrings(s: seq<string>): (r: seq<string>)
    ensures Sorted(r)
    ensures multiset(r) == multiset(s)
  {
    if s == [] then []
    else
      assert s == [s[0]] + s[1..];
      Insert(s[0], SortStrings(s[1..]))
  }

  /** The first element of a sorted sequence is not above any of its elements. */
  lemma SortedHeadIsLeast(a: seq<string>, x: string)
    requires Sorted(a) && x in multiset(a)
    ensures !Less(x, a[0])
  {
    var i :| 0 <= i < |a| && a[i] == x;
    if i == 0 {
      LessIrreflexive(x);
    }
  }

  /** Two sorted sequences with the same elements start with the same element. */
  lemma SortedHeadsAgree(a: seq<string>, b: seq<string>)
    requires Sorted(a) && Sorted(b) && multiset(a) == multiset(b) && a != []
    ensures b != [] && a[0] == b[0]
  {
    assert a[0] in multiset(a);
    SortedHeadIsLeast(b, a[0]);
    assert b[0] in multiset(b);
    SortedHeadIsLeast(a, b[0]);
    LessTotal(a[0], b[0]);
  }

  lemma TailOfSorted(a: seq<string>)
    requires Sorted(a) && a != []
    ensures Sorted(a[1..])
    ensures multiset(a[1..]) == multiset(a) - multiset{a[0]}
  {
    assert a == [a[0]] + a[1..];
  }

  /** Two sorted sequences with the same elements are equal. */
  lemma {:induction false} SortedUnique(a: seq<string>, b: seq<string>)
    requires Sorted(a) && Sorted(b) && multiset(a) == multiset(b)
    ensures a == b
  {
    if a != [] {
      SortedHeadsAgree(a, b);
      TailOfSorted(a);
      TailOfSorted(b);
      SortedUnique(a[1..], b[1..]);
      assert a == [a[0]] + a[1..] && b == [b[0]] + b[1..];
    } else {
      assert |multiset(b)| == 0;
    }
  }
}
