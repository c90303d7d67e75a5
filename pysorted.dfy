/**
 * Python's `set(...)` (as a de-duplicated list) and `sorted(...)` on lists of
 * strings, under the string order of `PyStr.Less`.
 */
module PySorted {
  import opened PyStr

  predicate NoDups(s: seq<string>) {
    forall i, j :: 0 <= i < j < |s| ==> s[i] != s[j]
  }

  /** Ascending: no later element is smaller than an earlier one. */
  predicate Sorted(s: seq<string>) {
    forall i, j :: 0 <= i < j < |s| ==> !Less(s[j], s[i])
  }

  /** Strictly ascending. */
  predicate Increasing(s: seq<string>) {
    forall i, j :: 0 <= i < j < |s| ==> Less(s[i], s[j])
  }

  /** The distinct elements of `s`, each at its first occurrence. */
  function Distinct(s: seq<string>): (r: seq<string>)
    ensures NoDups(r)
    ensures forall x :: x in r <==> x in s
    ensures |r| <= |s|
  {
    if s == [] then []
    else
      var d := Distinct(s[..|s| - 1]);
      var x := s[|s| - 1];
      assert s == s[..|s| - 1] + [x];
      if x in d then d else d + [x]
  }

  /** Inserts `x` into the sorted list `s` before the first element not smaller than it. */
  function Insert(x: string, s: seq<string>): (r: seq<string>)
    requires Sorted(s)
    ensures Sorted(r)
    ensures multiset(r) == multiset(s) + multiset{x}
  {
    if s == [] || !Less(s[0], x) then
      InsertFront(x, s);
      [x] + s
    else
      var r' := Insert(x, s[1..]);
      InsertBehind(x, s, r');
      assert s == [s[0]] + s[1..];
      [s[0]] + r'
  }

  lemma InsertFront(x: string, s: seq<string>)
    requires Sorted(s) && (s == [] || !Less(s[0], x))
    ensures Sorted([x] + s)
  {
    forall j | 0 <= j < |s| ensures !Less(s[j], x) {
      if j > 0 && Less(s[j], x) {
        LessTotal(s[0], s[j]);
        if Less(s[0], s[j]) {
          LessTransitive(s[0], s[j], x);
        }
      }
    }
  }

  lemma InsertBehind(x: string, s: seq<string>, r': seq<string>)
    requires Sorted(s) && s != [] && Less(s[0], x)
    requires Sorted(r') && multiset(r') == multiset(s[1..]) + multiset{x}
    ensures Sorted([s[0]] + r')
  {
    assert s == [s[0]] + s[1..];
    forall j | 0 <= j < |r'| ensures !Less(r'[j], s[0]) {
      assert r'[j] in multiset(r');
      if r'[j] != x {
        assert r'[j] in multiset(s[1..]);
        var k :| 0 <= k < |s[1..]| && s[1..][k] == r'[j];
        assert s[k + 1] == r'[j];
      } else {
        LessAsymmetric(s[0], x);
      }
    }
  }

  /** Sorting keeps a list free of duplicates: the counts of its elements are unchanged. */
  lemma NoDupsOfPermutation(s: seq<string>, r: seq<string>)
    requires multiset(r) == multiset(s) && NoDups(s)
    ensures NoDups(r)
  {
    forall i, j | 0 <= i < j < |r| ensures r[i] != r[j] {
      if r[i] == r[j] {
        var x := r[i];
        assert r == r[..i] + [x] + r[i + 1..j] + [x] + r[j + 1..];
        assert multiset(r)[x] >= 2;
        NoDupsCount(s, x);
      }
    }
  }

  lemma {:induction false} NoDupsCount(s: seq<string>, x: string)
    requires NoDups(s)
    ensures multiset(s)[x] <= 1
  {
    if s != [] {
      assert s == [s[0]] + s[1..];
      NoDupsCount(s[1..], x);
      if s[0] == x {
        assert x !in s[1..];
      }
    }
  }

  /** `sorted(s)` (insertion sort; for strings any stable sort gives the same list). */
  function Sort(s: seq<string>): (r: seq<string>)
    ensures Sorted(r)
    ensures multiset(r) == multiset(s)
    ensures |r| == |s|
    ensures forall y :: y in r <==> y in s
  {
    if s == [] then []
    else
      assert s == [s[0]] + s[1..];
      var r := Insert(s[0], Sort(s[1..]));
      assert forall y :: y in r <==> y in multiset(r);
      r
  }

  /** A sorted list without duplicates is strictly ascending. */
  lemma SortedNoDupsIncreasing(s: seq<string>)
    requires Sorted(s) && NoDups(s)
    ensures Increasing(s)
  {
    forall i, j | 0 <= i < j < |s| ensures Less(s[i], s[j]) {
      LessTotal(s[i], s[j]);
    }
  }

  /** Sorting a list that is already strictly ascending leaves it as it is. */
  lemma {:induction false} SortOfIncreasing(s: seq<string>)
    requires Increasing(s)
    ensures Sort(s) == s
  {
    if s != [] {
      SortOfIncreasing(s[1..]);
      if |s| > 1 {
        LessAsymmetric(s[0], s[1]);
      }
    }
  }

  /** `sorted(set(s))`: the distinct elements of `s`, strictly ascending. */
  function SortedSet(s: seq<string>): (r: seq<string>)
    ensures Increasing(r)
    ensures forall x :: x in r <==> x in s
  {
    var r := Sort(Distinct(s));
    NoDupsOfPermutation(Distinct(s), r);
    SortedNoDupsIncreasing(r);
    r
  }

  /** A strictly ascending list has no duplicates. */
  lemma IncreasingNoDups(s: seq<string>)
    requires Increasing(s)
    ensures NoDups(s)
  {
    forall i, j | 0 <= i < j < |s| ensures s[i] != s[j] {
      LessIrreflexive(s[i]);
    }
  }

  lemma FirstIsMember(s: seq<string>)
    ensures s != [] ==> s[0] in s
  {
  }

  /** Two strictly ascending lists with the same elements are the same list. */
  lemma {:induction false} IncreasingUnique(a: seq<string>, b: seq<string>)
    requires Increasing(a) && Increasing(b)
    requires forall x :: x in a <==> x in b
    ensures a == b
  {
    FirstIsMember(a);
    FirstIsMember(b);
    if a != [] && b != [] {
      assert a[0] in b;
      assert b[0] in a;
      var k :| 0 <= k < |b| && b[k] == a[0];
      var j :| 0 <= j < |a| && a[j] == b[0];
      if k > 0 {
        if j > 0 {
          LessAsymmetric(a[0], b[0]);
        } else {
          LessIrreflexive(b[0]);
        }
      }
      forall x ensures x in a[1..] <==> x in b[1..] {
        if x in a[1..] {
          var i :| 1 <= i < |a| && a[i] == x;
          assert x in b;
          var i' :| 0 <= i' < |b| && b[i'] == x;
          if i' == 0 {
            LessIrreflexive(a[0]);
          }
          assert b[1..][i' - 1] == x;
        }
        if x in b[1..] {
          var i :| 1 <= i < |b| && b[i] == x;
          assert x in a;
          var i' :| 0 <= i' < |a| && a[i'] == x;
          if i' == 0 {
            LessIrreflexive(b[0]);
          }
          assert a[1..][i' - 1] == x;
        }
      }
      IncreasingUnique(a[1..], b[1..]);
      assert a == [a[0]] + a[1..] && b == [b[0]] + b[1..];
    }
  }
}
