/** `sort.Strings`: byte-wise lexicographic order on strings and a sort for it.
    On the ASCII strings of this model, byte order is character order. */
module Sorting {

  /** `a <= b` in lexicographic order: a proper prefix comes first. */
  predicate LessEq(a: string, b: string) {
    |a| == 0 || (|b| > 0 && (a[0] < b[0] || (a[0] == b[0] && LessEq(a[1..], b[1..]))))
  }

  lemma {:induction false} LessEqRefl(a: string)
    ensures LessEq(a, a)
  {
    if |a| > 0 {
      LessEqRefl(a[1..]);
    }
  }

  lemma {:induction false} LessEqAntisymmetric(a: string, b: string)
    requires LessEq(a, b) && LessEq(b, a)
    ensures a == b
  {
    if |a| > 0 {
      LessEqAntisymmetric(a[1..], b[1..]);
      assert a == [a[0]] + a[1..] && b == [b[0]] + b[1..];
    }
  }

  lemma {:induction false} LessEqTransitive(a: string, b: string, c: string)
    requires LessEq(a, b) && LessEq(b, c)
    ensures LessEq(a, c)
  {
    if |a| > 0 && a[0] == b[0] && b[0] == c[0] {
      LessEqTransitive(a[1..], b[1..], c[1..]);
    }
  }

  lemma {:induction false} LessEqTotal(a: string, b: string)
    ensures LessEq(a, b) || LessEq(b, a)
  {
    if |a| > 0 && |b| > 0 && a[0] == b[0] {
      LessEqTotal(a[1..], b[1..]);
    }
  }

  /** Ascending order. */
  predicate Sorted(s: seq<string>) {
    forall i, j :: 0 <= i < j < |s| ==> LessEq(s[i], s[j])
  }

  /** Ascending with no value repeated. */
  predicate StrictlySorted(s: seq<string>) {
    forall i, j :: 0 <= i < j < |s| ==> LessEq(s[i], s[j]) && s[i] != s[j]
  }

  /** Every element of `s` is at least `x`. */
  predicate AtLeast(x: string, s: seq<string>) {
    forall k :: 0 <= k < |s| ==> LessEq(x, s[k])
  }

  /** Places `x` before the first element it does not exceed. */
  function Insert(x: string, s: seq<string>): (r: seq<string>)
    requires Sorted(s)
    ensures |r| == |s| + 1
    ensures multiset(r) == multiset(s) + multiset{x}
    ensures Sorted(r)
  {
    if |s| == 0 then [x]
    else if LessEq(x, s[0]) then
      assert AtLeast(x, s) by {
        forall k | 1 <= k < |s| ensures LessEq(x, s[k]) {
          LessEqTransitive(x, s[0], s[k]);
        }
      }
      [x] + s
    else
      var rest := Insert(x, s[1..]);
      LessEqTotal(x, s[0]);
      InsertAtLeast(s[0], x, s[1..], rest);
      assert s == [s[0]] + s[1..];
      [s[0]] + rest
  }

  /** A lower bound of `x` and of `s` bounds every element of their merge. */
  lemma InsertAtLeast(lo: string, x: string, s: seq<string>, rest: seq<string>)
    requires LessEq(lo, x) && AtLeast(lo, s)
    requires multiset(rest) == multiset(s) + multiset{x}
    ensures AtLeast(lo, rest)
  {
    forall k | 0 <= k < |rest| ensures LessEq(lo, rest[k]) {
      assert rest[k] in multiset(rest);
      if rest[k] != x {
        assert rest[k] in multiset(s);
        var j :| 0 <= j < |s| && s[j] == rest[k];
      }
    }
  }

  /** Insertion sort: an ascending permutation of `s`. */
  function Sort(s: seq<string>): (r: seq<string>)
    ensures |r| == |s|
    ensures multiset(r) == multiset(s)
    ensures Sorted(r)
  {
    if |s| == 0 then []
    else
      assert s == [s[0]] + s[1..];
      Insert(s[0], Sort(s[1..]))
  }

  /** The smallest element is first. */
  lemma SortedFirst(s: seq<string>, x: string)
    requires Sorted(s) && x in s
    ensures LessEq(s[0], x)
  {
    var k :| 0 <= k < |s| && s[k] == x;
    if k == 0 {
      LessEqRefl(x);
    }
  }

  /** Two ascending sequences with the same elements are equal: the sorted order of a
      collection is unique, so the result does not depend on the input order. */
  lemma {:induction false} SortedUnique(a: seq<string>, b: seq<string>)
    requires Sorted(a) && Sorted(b) && multiset(a) == multiset(b)
    ensures a == b
  {
    if |a| > 0 {
      assert a[0] in multiset(b) && b[0] in multiset(a);
      SortedFirst(a, b[0]);
      SortedFirst(b, a[0]);
      LessEqAntisymmetric(a[0], b[0]);
      assert a == [a[0]] + a[1..] && b == [b[0]] + b[1..];
      assert multiset(a[1..]) == multiset(a) - multiset{a[0]};
      assert multiset(b[1..]) == multiset(b) - multiset{b[0]};
      assert Sorted(a[1..]) && Sorted(b[1..]);
      SortedUnique(a[1..], b[1..]);
    } else {
      assert |b| == |multiset(b)| == 0;
    }
  }

  /** Sorting depends only on the elements, not on their order. */
  lemma SortPermutation(a: seq<string>, b: seq<string>)
    requires multiset(a) == multiset(b)
    ensures Sort(a) == Sort(b)
  {
    SortedUnique(Sort(a), Sort(b));
  }

  /** A sorted sequence with no repeats is strictly ascending. */
  lemma SortedDistinct(s: seq<string>)
    requires Sorted(s)
    requires forall x :: multiset(s)[x] <= 1
    ensures StrictlySorted(s)
  {
    forall i, j | 0 <= i < j < |s| ensures s[i] != s[j] {
      if s[i] == s[j] {
        TwoOccurrences(s, i, j);
      }
    }
  }

  lemma TwoOccurrences(s: seq<string>, i: nat, j: nat)
    requires i < j < |s| && s[i] == s[j]
    ensures multiset(s)[s[i]] >= 2
  {
    assert s == s[..j] + s[j..];
    assert s[i] == s[..j][i] && s[j] == s[j..][0];
  }
}
