/** Code-point lexicographic order on strings, and sorting by it. It stands in
    for the locale-aware `localeCompare` that index.js sorts words with. */
module StringOrder {

  /** `a` sorts strictly before `b`: a proper prefix, or smaller at the first
      character where the two differ. */
  predicate Less(a: string, b: string)
  {
    if |a| == 0 then |b| > 0
    else if |b| == 0 then false
    else a[0] < b[0] || (a[0] == b[0] && Less(a[1..], b[1..]))
  }

  lemma {:induction false} LessIrreflexive(a: string)
    ensures !Less(a, a)
  {
    if |a| > 0 {
      LessIrreflexive(a[1..]);
    }
  }

  lemma {:induction false} LessTransitive(a: string, b: string, c: string)
    requires Less(a, b) && Less(b, c)
    ensures Less(a, c)
  {
    if |a| > 0 && |b| > 0 && |c| > 0 && a[0] == b[0] == c[0] {
      LessTransitive(a[1..], b[1..], c[1..]);
    }
  }

  /** Any two different strings are ordered one way or the other. */
  lemma {:induction false} LessTotal(a: string, b: string)
    ensures a == b || Less(a, b) || Less(b, a)
  {
    if |a| > 0 && |b| > 0 && a[0] == b[0] {
      LessTotal(a[1..], b[1..]);
      if a[1..] == b[1..] {
        assert a == [a[0]] + a[1..] && b == [b[0]] + b[1..];
      }
    }
  }

  lemma {:induction false} LessAsymmetric(a: string, b: string)
    ensures !(Less(a, b) && Less(b, a))
  {
    if |a| > 0 && |b| > 0 && a[0] == b[0] {
      LessAsymmetric(a[1..], b[1..]);
    }
  }

  /** Every element sorts strictly before every later one: sorted and free of
      duplicates. */
  ghost predicate StrictlySorted(s: seq<string>)
  {
    forall i, j :: 0 <= i < j < |s| ==> Less(s[i], s[j])
  }

  /** No element sorts after a later one. */
  ghost predicate Sorted(s: seq<string>)
  {
    forall i, j :: 0 <= i < j < |s| ==> !Less(s[j], s[i])
  }

  /** No two positions hold the same string. */
  ghost predicate Distinct(s: seq<string>)
  {
    forall i, j :: 0 <= i < j < |s| ==> s[i] != s[j]
  }

  /** Inserts `x` into a sorted sequence before the first element not below it. */
  function Insert(x: string, s: seq<string>): (r: seq<string>)
    requires Sorted(s)
    ensures Sorted(r)
    ensures multiset(r) == multiset(s) + multiset{x}
  {
    if |s| == 0 then [x]
    else if Less(s[0], x) then
      var r := [s[0]] + Insert(x, s[1..]);
      assert s == [s[0]] + s[1..];
      forall j | 0 < j < |r| ensures !Less(r[j], s[0]) {
        assert r[j] in multiset(s[1..]) + multiset{x};
        if r[j] == x {
          LessAsymmetric(s[0], x);
        } else {
          var k :| 0 <= k < |s[1..]| && s[1..][k] == r[j];
          assert s[k + 1] == r[j];
        }
      }
      r
    else
      assert forall j :: 0 < j < |s| ==> !Less(s[j], s[0]);
      forall j | 0 <= j < |s| ensures !Less(s[j], x) {
        LessTotal(s[0], x);
        if Less(s[j], x) {
          LessTotal(s[j], s[0]);
          if s[j] != s[0] {
            LessTransitive(s[0], s[j], x);
          }
        }
      }
      [x] + s
  }

  /** Insertion sort by `Less`; the result is a sorted permutation. */
  function Sort(s: seq<string>): (r: seq<string>)
    ensures Sorted(r)
    ensures multiset(r) == multiset(s)
  {
    if |s| == 0 then []
    else
      assert s == [s[0]] + s[1..];
      Insert(s[0], Sort(s[1..]))
  }

  /** A sorted sequence without duplicates is strictly sorted. */
  lemma SortedDistinctIsStrict(s: seq<string>)
    requires Sorted(s) && Distinct(s)
    ensures StrictlySorted(s)
  {
    forall i, j | 0 <= i < j < |s| ensures Less(s[i], s[j]) {
      LessTotal(s[i], s[j]);
    }
  }

  /** Distinctness depends only on the multiset of elements. */
  lemma DistinctByMultiset(s: seq<string>, t: seq<string>)
    requires Distinct(s) && multiset(s) == multiset(t)
    ensures Distinct(t)
  {
    forall i, j | 0 <= i < j < |t| ensures t[i] != t[j] {
      assert t[i] in multiset(s);
      DistinctCount(s, t[i]);
      RepeatCount(t, i, j);
    }
  }

  /** A value at two positions occurs at least twice. */
  lemma RepeatCount(t: seq<string>, i: nat, j: nat)
    requires i < j < |t|
    ensures t[i] == t[j] ==> multiset(t)[t[i]] >= 2
  {
    assert t == t[..j] + [t[j]] + t[j + 1..];
    assert t[..j][i] == t[i];
    assert multiset(t[..j])[t[i]] >= 1;
  }

  /** In a sequence without duplicates every element occurs exactly once. */
  lemma {:induction false} DistinctCount(s: seq<string>, x: string)
    requires Distinct(s) && x in s
    ensures multiset(s)[x] == 1
  {
    assert s == [s[0]] + s[1..];
    if s[0] == x {
      assert x !in s[1..];
    } else {
      DistinctCount(s[1..], x);
    }
  }

  /** A strictly sorted sequence is determined by its elements: there is one
      strictly sorted arrangement of a finite set of strings. */
  lemma {:induction false} StrictlySortedUnique(a: seq<string>, b: seq<string>)
    requires StrictlySorted(a) && StrictlySorted(b)
    requires forall w :: w in a <==> w in b
    ensures a == b
  {
    assert |a| > 0 ==> a[0] in a;
    assert |b| > 0 ==> b[0] in b;
    if |a| > 0 && |b| > 0 {
      assert a[0] in a && b[0] in b;
      var k :| 0 <= k < |b| && b[k] == a[0];
      var m :| 0 <= m < |a| && a[m] == b[0];
      LessIrreflexive(a[0]);
      LessIrreflexive(b[0]);
      LessAsymmetric(a[0], b[0]);
      assert a[0] == b[0];
      forall w ensures w in a[1..] <==> w in b[1..] {
        if w in a[1..] {
          var i :| 0 <= i < |a[1..]| && a[1..][i] == w;
          assert a[i + 1] == w;
          LessIrreflexive(w);
          assert w in b;
          var i' :| 0 <= i' < |b| && b[i'] == w;
          assert b[1..][i' - 1] == w;
        }
        if w in b[1..] {
          var i :| 0 <= i < |b[1..]| && b[1..][i] == w;
          assert b[i + 1] == w;
          LessIrreflexive(w);
          assert w in a;
          var i' :| 0 <= i' < |a| && a[i'] == w;
          assert a[1..][i' - 1] == w;
        }
      }
      StrictlySortedUnique(a[1..], b[1..]);
      assert a == [a[0]] + a[1..] && b == [b[0]] + b[1..];
    }
  }
}
