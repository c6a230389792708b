/**
 * The default ordering of JavaScript's `Array.prototype.sort` on strings
 * (lexicographic by character code), and a sort by that ordering, as used
 * for `Object.keys(components).sort()`.
 */
module Ordering {

  /** `a` sorts strictly before `b`: a proper prefix, or smaller at the first difference. */
  predicate Precedes(a: string, b: string)
  {
    if |a| == 0 then |b| > 0
    else if |b| == 0 then false
    else a[0] < b[0] || (a[0] == b[0] && Precedes(a[1..], b[1..]))
  }

  lemma {:induction false} PrecedesIrreflexive(a: string)
    ensures !Precedes(a, a)
  {
    if |a| > 0 {
      PrecedesIrreflexive(a[1..]);
    }
  }

  lemma {:induction false} PrecedesTransitive(a: string, b: string, c: string)
    requires Precedes(a, b) && Precedes(b, c)
    ensures Precedes(a, c)
  {
    if |a| > 0 && a[0] == b[0] && b[0] == c[0] {
      PrecedesTransitive(a[1..], b[1..], c[1..]);
    }
  }

  /** Any two different strings are ordered one way or the other. */
  lemma {:induction false} PrecedesTotal(a: string, b: string)
    requires a != b
    ensures Precedes(a, b) || Precedes(b, a)
  {
    if |a| > 0 && |b| > 0 && a[0] == b[0] {
      assert a == [a[0]] + a[1..] && b == [b[0]] + b[1..];
      PrecedesTotal(a[1..], b[1..]);
    }
  }

  lemma PrecedesAsymmetric(a: string, b: string)
    requires Precedes(a, b)
    ensures !Precedes(b, a)
  {
    if Precedes(b, a) {
      PrecedesTransitive(a, b, a);
      PrecedesIrreflexive(a);
    }
  }

  /** Whenever `a` is before `c`, any `b` is after `a` or before `c`. */
  lemma PrecedesSplit(a: string, b: string, c: string)
    requires Precedes(a, c)
    ensures Precedes(a, b) || Precedes(b, c)
  {
    if b != a {
      PrecedesTotal(a, b);
      if Precedes(b, a) {
        PrecedesTransitive(b, a, c);
      }
    }
  }

  /** No element is followed by one that sorts before it. */
  ghost predicate Sorted(s: seq<string>)
  {
    forall i, j :: 0 <= i < j < |s| ==> !Precedes(s[j], s[i])
  }

  /** Every element is strictly before every later one. */
  ghost predicate StrictlySorted(s: seq<string>)
  {
    forall i, j :: 0 <= i < j < |s| ==> Precedes(s[i], s[j])
  }

  ghost predicate Distinct<T>(s: seq<T>)
  {
    forall i, j :: 0 <= i < j < |s| ==> s[i] != s[j]
  }

  /** `x` put into the sorted `s` just before the first element that does not precede it. */
  function Insert(x: string, s: seq<string>): (r: seq<string>)
    requires Sorted(s)
    ensures Sorted(r)
    ensures multiset(r) == multiset(s) + multiset{x}
  {
    if |s| == 0 || !Precedes(s[0], x) then
      InsertFront(x, s);
      [x] + s
    else
      var tail := Insert(x, s[1..]);
      assert s == [s[0]] + s[1..];
      PrecedesAsymmetric(s[0], x);
      forall k | 0 <= k < |tail| ensures !Precedes(tail[k], s[0]) {
        assert tail[k] in multiset(tail);
        if tail[k] != x {
          assert tail[k] in multiset(s[1..]);
          var m :| 0 <= m < |s[1..]| && s[1..][m] == tail[k];
          assert s[1 + m] == tail[k];
        }
      }
      [s[0]] + tail
  }

  lemma InsertFront(x: string, s: seq<string>)
    requires Sorted(s)
    requires |s| == 0 || !Precedes(s[0], x)
    ensures Sorted([x] + s)
  {
    forall j | 0 <= j < |s| ensures !Precedes(s[j], x) {
      if Precedes(s[j], x) {
        PrecedesSplit(s[j], s[0], x);
      }
    }
  }

  /** `names.sort()` on strings. */
  function Sort(names: seq<string>): (r: seq<string>)
    ensures Sorted(r)
    ensures multiset(r) == multiset(names)
  {
    if |names| == 0 then [] else
      assert names == [names[0]] + names[1..];
      Insert(names[0], Sort(names[1..]))
  }

  lemma DistinctByMultiset(s: seq<string>)
    requires forall x :: multiset(s)[x] <= 1
    ensures Distinct(s)
  {
    forall i, j | 0 <= i < j < |s| ensures s[i] != s[j] {
      var x := s[i];
      assert s == s[..j] + s[j..];
      assert s[..j][i] == x;
      assert multiset(s[..j])[x] >= 1;
      assert multiset(s)[x] == multiset(s[..j])[x] + multiset(s[j..])[x];
      assert s[j..][0] == s[j];
      assert multiset(s[j..])[s[j]] >= 1;
    }
  }

  lemma {:induction false} MultisetOfDistinct(s: seq<string>)
    requires Distinct(s)
    ensures forall x :: multiset(s)[x] <= 1
  {
    if |s| > 0 {
      MultisetOfDistinct(s[1..]);
      assert s == [s[0]] + s[1..];
      assert s[0] !in s[1..];
    }
  }

  /**
   * Sorting distinct names gives each name exactly once, in strictly
   * increasing order.
   */
  lemma SortDistinct(names: seq<string>)
    requires Distinct(names)
    ensures var r := Sort(names);
            && |r| == |names|
            && (forall x :: x in r <==> x in names)
            && StrictlySorted(r)
  {
    var r := Sort(names);
    assert |r| == |multiset(r)| == |multiset(names)| == |names|;
    forall x ensures x in r <==> x in names {
      assert x in r <==> x in multiset(r);
      assert x in names <==> x in multiset(names);
    }
    MultisetOfDistinct(names);
    DistinctByMultiset(r);
    forall i, j | 0 <= i < j < |r| ensures Precedes(r[i], r[j]) {
      PrecedesTotal(r[i], r[j]);
    }
  }
}
