/**
 Python's ordering of `str` values (code point by code point, a proper
 prefix first) and `sorted()` on a list of strings.
 */
module StringOrder {

  /** `a < b` on Python strings. */
  predicate Less(a: string, b: string)
    decreases |a|
  {
    if |a| == 0 then |b| > 0
    else if |b| == 0 then false
    else if a[0] != b[0] then a[0] < b[0]
    else Less(a[1..], b[1..])
  }

  lemma {:induction false} LessIrreflexive(a: string)
    ensures !Less(a, a)
    decreases |a|
  {
    if |a| > 0 {
      LessIrreflexive(a[1..]);
    }
  }

  lemma {:induction false} LessTransitive(a: string, b: string, c: string)
    requires Less(a, b) && Less(b, c)
    ensures Less(a, c)
    decreases |a|
  {
    if |a| > 0 && a[0] == b[0] && b[0] == c[0] {
      LessTransitive(a[1..], b[1..], c[1..]);
    }
  }

  /** Any two different strings are ordered one way or the other. */
  lemma {:induction false} LessTotal(a: string, b: string)
    requires a != b
    ensures Less(a, b) || Less(b, a)
    decreases |a|
  {
    if |a| > 0 && |b| > 0 && a[0] == b[0] {
      assert a == [a[0]] + a[1..] && b == [b[0]] + b[1..];
      LessTotal(a[1..], b[1..]);
    }
  }

  lemma LessAsymmetric(a: string, b: string)
    requires Less(a, b)
    ensures !Less(b, a)
  {
    if Less(b, a) {
      LessTransitive(a, b, a);
      LessIrreflexive(a);
    }
  }

  /** What `sorted()` promises: no element is smaller than one before it. */
  ghost predicate Ascending(s: seq<string>)
  {
    forall i, j :: 0 <= i < j < |s| ==> !Less(s[j], s[i])
  }

  /** Sorted and free of duplicates. */
  ghost predicate StrictlyAscending(s: seq<string>)
  {
    forall i, j :: 0 <= i < j < |s| ==> Less(s[i], s[j])
  }

  /** Puts `x` after every element not greater than it, keeping `s` ascending. */
  method Insert(s: seq<string>, x: string) returns (r: seq<string>)
    requires Ascending(s)
    ensures Ascending(r)
    ensures multiset(r) == multiset(s) + multiset{x}
  {
    var k := 0;
    while k < |s| && !Less(x, s[k])
      invariant 0 <= k <= |s|
      invariant forall j :: 0 <= j < k ==> !Less(x, s[j])
    {
      k := k + 1;
    }
    r := s[..k] + [x] + s[k..];
    assert s == s[..k] + s[k..];
    forall i, j | 0 <= i < j < |r|
      ensures !Less(r[j], r[i])
    {
      if i < k && j == k {
      } else if i == k && j > k {
        // r[j] == s[j - 1], and s[k] is the first element greater than x
        if Less(r[j], x) {
          if j - 1 > k {
            LessTransitive(s[j - 1], x, s[k]);
          } else {
            LessAsymmetric(x, s[k]);
          }
        }
      }
    }
  }

  /** Python's `sorted(items)`: a new list holding the same elements in ascending order. */
  method Sorted(items: seq<string>) returns (r: seq<string>)
    ensures Ascending(r)
    ensures multiset(r) == multiset(items)
  {
    r := [];
    for i := 0 to |items|
      invariant Ascending(r)
      invariant multiset(r) == multiset(items[..i])
    {
      r := Insert(r, items[i]);
      assert items[..i + 1] == items[..i] + [items[i]];
    }
    assert items[..|items|] == items;
  }

  /** No two positions of a list that holds each element of a set once hold the same string. */
  lemma DistinctPositions(s: seq<string>, elements: set<string>, i: int, j: int)
    requires multiset(s) == multiset(elements)
    requires 0 <= i < j < |s|
    ensures s[i] != s[j]
  {
    assert s == s[..j] + s[j..];
    assert s[j] in multiset(s[j..]);
    assert multiset(s)[s[j]] <= 1;
    assert s[j] !in multiset(s[..j]);
    assert s[i] in s[..j];
  }

  /** An ascending list that holds each element of a set once is strictly ascending. */
  lemma AscendingDistinct(s: seq<string>, elements: set<string>)
    requires Ascending(s)
    requires multiset(s) == multiset(elements)
    ensures StrictlyAscending(s)
  {
    forall i, j | 0 <= i < j < |s|
      ensures Less(s[i], s[j])
    {
      DistinctPositions(s, elements, i, j);
      LessTotal(s[i], s[j]);
    }
  }

  lemma SameElementsBothEmpty(a: seq<string>, b: seq<string>)
    requires forall x :: x in a <==> x in b
    ensures a == [] <==> b == []
  {
    if a != [] {
      assert a[0] in b;
    }
    if b != [] {
      assert b[0] in a;
    }
  }

  /** The first element of a strictly ascending list is its least element. */
  lemma HeadIsLeast(a: seq<string>, m: int)
    requires StrictlyAscending(a)
    requires 0 <= m < |a|
    ensures a[m] == a[0] || Less(a[0], a[m])
  {
  }

  /**
   There is only one strictly ascending list with a given set of elements,
   so the order in which a set is traversed never shows in a sorted result.
   */
  lemma {:induction false} StrictlyAscendingUnique(a: seq<string>, b: seq<string>)
    requires StrictlyAscending(a) && StrictlyAscending(b)
    requires forall x :: x in a <==> x in b
    ensures a == b
    decreases |a|
  {
    SameElementsBothEmpty(a, b);
    if a != [] {
      assert a[0] in b && b[0] in a;
      var k :| 0 <= k < |b| && b[k] == a[0];
      var m :| 0 <= m < |a| && a[m] == b[0];
      HeadIsLeast(b, k);
      HeadIsLeast(a, m);
      if Less(a[0], b[0]) {
        LessAsymmetric(a[0], b[0]);
      }
      assert a[0] == b[0];
      forall x
        ensures x in a[1..] <==> x in b[1..]
      {
        LessIrreflexive(x);
        if x in a[1..] {
          var i :| 1 <= i < |a| && a[i] == x;
          assert Less(a[0], x) && x in b;
          var j :| 0 <= j < |b| && b[j] == x;
          assert j != 0 && b[1..][j - 1] == x;
        }
        if x in b[1..] {
          var i :| 1 <= i < |b| && b[i] == x;
          assert Less(b[0], x) && x in a;
          var j :| 0 <= j < |a| && a[j] == x;
          assert j != 0 && a[1..][j - 1] == x;
        }
      }
      StrictlyAscendingUnique(a[1..], b[1..]);
      assert a == [a[0]] + a[1..] && b == [b[0]] + b[1..];
    }
  }
}
