/** Sorting by a comparison, standing for slices.SortFunc and sort.Slice. */
module Sorting {

  ghost predicate TotalPreorder<T(!new)>(atMost: (T, T) -> bool) {
    && (forall a, b :: atMost(a, b) || atMost(b, a))
    && (forall a, b, c | atMost(a, b) && atMost(b, c) :: atMost(a, c))
  }

  ghost predicate SortedBy<T>(atMost: (T, T) -> bool, s: seq<T>) {
    forall i, j | 0 <= i < j < |s| :: atMost(s[i], s[j])
  }

  lemma InsertionKeepsOrder<T(!new)>(atMost: (T, T) -> bool, s: seq<T>, k: nat, x: T)
    requires TotalPreorder(atMost) && SortedBy(atMost, s) && k <= |s|
    requires k > 0 ==> atMost(s[k - 1], x)
    requires k < |s| ==> atMost(x, s[k])
    ensures SortedBy(atMost, s[..k] + [x] + s[k..])
  {}

  lemma InsertionKeepsElements<T>(s: seq<T>, k: nat, x: T)
    requires k <= |s|
    ensures multiset(s[..k] + [x] + s[k..]) == multiset(s) + multiset{x}
  {
    assert s == s[..k] + s[k..];
  }

  method Place<T(!new)>(atMost: (T, T) -> bool, s: seq<T>, x: T) returns (grown: seq<T>)
    requires TotalPreorder(atMost) && SortedBy(atMost, s)
    ensures SortedBy(atMost, grown)
    ensures multiset(grown) == multiset(s) + multiset{x}
  {
    var k := 0;
    while k < |s| && atMost(s[k], x)
      invariant k <= |s|
      invariant k > 0 ==> atMost(s[k - 1], x)
    {
      k := k + 1;
    }
    InsertionKeepsOrder(atMost, s, k, x);
    InsertionKeepsElements(s, k, x);
    grown := s[..k] + [x] + s[k..];
  }

  method Sort<T(!new)>(atMost: (T, T) -> bool, s: seq<T>) returns (sorted: seq<T>)
    requires TotalPreorder(atMost)
    ensures SortedBy(atMost, sorted)
    ensures multiset(sorted) == multiset(s)
  {
    sorted := [];
    for n := 0 to |s|
      invariant SortedBy(atMost, sorted)
      invariant multiset(sorted) == multiset(s[..n])
    {
      sorted := Place(atMost, sorted, s[n]);
      assert s[..n + 1] == s[..n] + [s[n]];
    }
    assert s[..|s|] == s;
  }

  ghost predicate DistinctBy<T, K>(key: T -> K, s: seq<T>) {
    forall i, j | 0 <= i < j < |s| :: key(s[i]) != key(s[j])
  }

  lemma TwiceMeansTwoPlaces<T>(s: seq<T>, x: T) returns (i: nat, j: nat)
    requires multiset(s)[x] >= 2
    ensures i < j < |s| && s[i] == s[j] == x
  {
    i :| 0 <= i < |s| && s[i] == x;
    assert s == s[..i] + [x] + s[i + 1..];
    if x in s[i + 1..] {
      j :| i < j < |s| && s[j] == x;
    } else {
      assert multiset(s[i + 1..])[x] == 0;
      assert x in multiset(s[..i]);
      j := i;
      i :| 0 <= i < j && s[i] == x;
    }
  }

  /** Reordering keeps keys distinct. */
  lemma PermutationKeepsDistinct<T, K>(key: T -> K, a: seq<T>, b: seq<T>)
    requires multiset(a) == multiset(b) && DistinctBy(key, a)
    ensures DistinctBy(key, b)
  {
    forall i, j | 0 <= i < j < |b|
      ensures key(b[i]) != key(b[j])
    {
      if b[i] == b[j] {
        assert b == b[..j] + b[j..];
        assert b[i] in b[..j] && b[j] in b[j..];
        var p, q := TwiceMeansTwoPlaces(a, b[i]);
      } else {
        assert b[i] in multiset(b) && b[j] in multiset(b);
        assert b[i] in multiset(a) && b[j] in multiset(a);
        var p :| 0 <= p < |a| && a[p] == b[i];
        var q :| 0 <= q < |a| && a[q] == b[j];
      }
    }
  }

  lemma PermutationsAreDistinctAlike<T, K>(key: T -> K, a: seq<T>, b: seq<T>)
    requires multiset(a) == multiset(b)
    ensures DistinctBy(key, a) <==> DistinctBy(key, b)
  {
    if DistinctBy(key, a) {
      PermutationKeepsDistinct(key, a, b);
    }
    if DistinctBy(key, b) {
      PermutationKeepsDistinct(key, b, a);
    }
  }

  lemma PermutationKeepsMembers<T>(a: seq<T>, b: seq<T>)
    requires multiset(a) == multiset(b)
    ensures forall x :: x in a <==> x in b
  {
    forall x ensures x in a <==> x in b {
      assert x in a <==> x in multiset(a);
      assert x in b <==> x in multiset(b);
    }
  }

  /** strings.Compare(a, b) <= 0. */
  predicate LexAtMost(a: string, b: string) {
    a == [] || (b != [] && (a[0] < b[0] || (a[0] == b[0] && LexAtMost(a[1..], b[1..]))))
  }

  lemma {:induction false} LexIsTotal(a: string, b: string)
    ensures LexAtMost(a, b) || LexAtMost(b, a)
  {
    if a != [] && b != [] && a[0] == b[0] {
      LexIsTotal(a[1..], b[1..]);
    }
  }

  lemma {:induction false} LexIsTransitive(a: string, b: string, c: string)
    requires LexAtMost(a, b) && LexAtMost(b, c)
    ensures LexAtMost(a, c)
  {
    if a != [] && a[0] == b[0] == c[0] {
      LexIsTransitive(a[1..], b[1..], c[1..]);
    }
  }

  lemma LexIsPreorder()
    ensures forall a, b :: LexAtMost(a, b) || LexAtMost(b, a)
    ensures forall a, b, c | LexAtMost(a, b) && LexAtMost(b, c) :: LexAtMost(a, c)
  {
    forall a, b ensures LexAtMost(a, b) || LexAtMost(b, a) {
      LexIsTotal(a, b);
    }
    forall a, b, c | LexAtMost(a, b) && LexAtMost(b, c) ensures LexAtMost(a, c) {
      LexIsTransitive(a, b, c);
    }
  }
}
