/** Stable sorting by any comparison, and what it means for numbers: counts below a bound stay. */
module Sorting {
  import opened Prelude

  // ----- by any comparison

  function InsertBy<T>(notAfter: (T, T) -> bool, x: T, s: seq<T>): (r: seq<T>)
    ensures |r| == |s| + 1
  {
    if s == [] || notAfter(x, s[0]) then [x] + s else [s[0]] + InsertBy(notAfter, x, s[1..])
  }

  /** Elements that do not differ in the comparison keep their order. */
  function SortBy<T>(notAfter: (T, T) -> bool, s: seq<T>): (r: seq<T>)
    ensures |r| == |s|
  {
    if s == [] then [] else InsertBy(notAfter, s[0], SortBy(notAfter, s[1..]))
  }

  ghost predicate Arranged<T>(notAfter: (T, T) -> bool, s: seq<T>) {
    forall i, j :: 0 <= i < j < |s| ==> notAfter(s[i], s[j])
  }

  /** The comparison is total and transitive on these elements. */
  ghost predicate Orders<T>(notAfter: (T, T) -> bool, u: seq<T>) {
    && (forall a, b :: a in u && b in u ==> notAfter(a, b) || notAfter(b, a))
    && (forall a, b, c :: a in u && b in u && c in u && notAfter(a, b) && notAfter(b, c) ==> notAfter(a, c))
  }

  lemma {:induction false} InsertByKeeps<T>(notAfter: (T, T) -> bool, x: T, s: seq<T>)
    ensures multiset(InsertBy(notAfter, x, s)) == multiset{x} + multiset(s)
    ensures forall y :: y in InsertBy(notAfter, x, s) <==> y == x || y in s
  {
    if s != [] && !notAfter(x, s[0]) {
      InsertByKeeps(notAfter, x, s[1..]);
      assert s == [s[0]] + s[1..];
    }
  }

  /** Whatever the comparison, sorting only rearranges. */
  lemma {:induction false} SortByKeeps<T>(notAfter: (T, T) -> bool, s: seq<T>)
    ensures multiset(SortBy(notAfter, s)) == multiset(s)
    ensures forall y :: y in SortBy(notAfter, s) <==> y in s
  {
    hide InsertBy;
    if s != [] {
      SortByKeeps(notAfter, s[1..]);
      InsertByKeeps(notAfter, s[0], SortBy(notAfter, s[1..]));
      assert s == [s[0]] + s[1..];
    }
  }

  lemma {:induction false} InsertByInOrder<T>(notAfter: (T, T) -> bool, x: T, s: seq<T>, u: seq<T>)
    requires Orders(notAfter, u) && x in u && Arranged(notAfter, s) && forall y :: y in s ==> y in u
    ensures Arranged(notAfter, InsertBy(notAfter, x, s))
  {
    if s == [] {
    } else if notAfter(x, s[0]) {
      assert forall j :: 0 <= j < |s| ==> s[j] in u;
    } else {
      assert s == [s[0]] + s[1..] && s[0] in u;
      InsertByInOrder(notAfter, x, s[1..], u);
      InsertByKeeps(notAfter, x, s[1..]);
      var t := InsertBy(notAfter, x, s[1..]);
      forall j | 0 <= j < |t| ensures notAfter(s[0], t[j]) {
        assert t[j] in t;
        assert t[j] in multiset{x} + multiset(s[1..]);
        if t[j] != x {
          var k :| 0 <= k < |s[1..]| && s[1..][k] == t[j];
          assert s[k + 1] == t[j];
        }
      }
    }
  }

  lemma {:induction false} SortByInOrder<T>(notAfter: (T, T) -> bool, s: seq<T>, u: seq<T>)
    requires Orders(notAfter, u) && forall y :: y in s ==> y in u
    ensures Arranged(notAfter, SortBy(notAfter, s))
  {
    hide InsertBy, Orders;
    if s != [] {
      assert s == [s[0]] + s[1..];
      SortByInOrder(notAfter, s[1..], u);
      SortByKeeps(notAfter, s[1..]);
      forall y | y in SortBy(notAfter, s[1..]) ensures y in u {
        assert y in multiset(s[1..]);
      }
      InsertByInOrder(notAfter, s[0], SortBy(notAfter, s[1..]), u);
    }
  }

  // ----- numbers

  predicate AtMost(x: real, y: real) {
    x <= y
  }

  function Insert(x: real, s: seq<real>): seq<real> {
    InsertBy(AtMost, x, s)
  }

  function Sort(s: seq<real>): (r: seq<real>)
    ensures |r| == |s|
  {
    SortBy(AtMost, s)
  }

  ghost predicate Sorted(s: seq<real>) {
    forall i, j :: 0 <= i < j < |s| ==> s[i] <= s[j]
  }

  lemma SortSorted(s: seq<real>)
    ensures Sorted(Sort(s))
    ensures forall y :: y in Sort(s) <==> y in s
  {
    SortByKeeps(AtMost, s);
    SortByInOrder(AtMost, s, s);
  }

  /** How many elements are at most `t`. */
  function CountLe(s: seq<real>, t: real): (n: nat)
    ensures n <= |s|
  {
    if s == [] then 0 else (if s[0] <= t then 1 else 0) + CountLe(s[1..], t)
  }

  lemma {:induction false} InsertCount(x: real, s: seq<real>, t: real)
    ensures CountLe(Insert(x, s), t) == CountLe(s, t) + if x <= t then 1 else 0
  {
    if s != [] && x > s[0] {
      InsertCount(x, s[1..], t);
      assert Insert(x, s)[1..] == Insert(x, s[1..]);
    } else {
      assert Insert(x, s)[1..] == s;
    }
  }

  lemma {:induction false} SortCount(s: seq<real>, t: real)
    ensures CountLe(Sort(s), t) == CountLe(s, t)
  {
    if s != [] {
      SortCount(s[1..], t);
      InsertCount(s[0], Sort(s[1..]), t);
    }
  }

  /** In a sorted sequence more than `k` elements are at most `t` exactly when element `k` is. */
  lemma {:induction false} SortedCount(s: seq<real>, t: real, k: nat)
    requires Sorted(s) && k < |s|
    ensures CountLe(s, t) > k <==> s[k] <= t
  {
    if k > 0 {
      SortedCount(s[1..], t, k - 1);
    } else if s[0] > t {
      NoneBelow(s, t);
    }
  }

  lemma {:induction false} NoneBelow(s: seq<real>, t: real)
    requires forall i :: 0 <= i < |s| ==> s[i] > t
    ensures CountLe(s, t) == 0
  {
    if s != [] {
      NoneBelow(s[1..], t);
    }
  }

  lemma {:induction false} CountMonotone(s: seq<real>, t: real, u: real)
    requires t <= u
    ensures CountLe(s, t) <= CountLe(s, u)
  {
    if s != [] {
      CountMonotone(s[1..], t, u);
    }
  }

  /** Sorted sequences with equal counts below every bound are equal. */
  lemma SortedUnique(a: seq<real>, b: seq<real>)
    requires Sorted(a) && Sorted(b) && |a| == |b|
    requires forall t :: CountLe(a, t) == CountLe(b, t)
    ensures a == b
  {
    forall k | 0 <= k < |a| ensures a[k] == b[k] {
      SortedCount(a, a[k], k);
      SortedCount(b, a[k], k);
      SortedCount(a, b[k], k);
      SortedCount(b, b[k], k);
    }
  }

  function Without(s: seq<real>, k: nat): seq<real>
    requires k < |s|
  {
    s[..k] + s[k + 1..]
  }

  lemma {:induction false} RemoveOne(s: seq<real>, k: nat, t: real)
    requires k < |s|
    ensures |Without(s, k)| == |s| - 1
    ensures CountLe(s, t) == CountLe(Without(s, k), t) + if s[k] <= t then 1 else 0
  {
    if k == 0 {
      assert Without(s, 0) == s[1..];
    } else {
      RemoveOne(s[1..], k - 1, t);
      assert Without(s, k)[1..] == Without(s[1..], k - 1);
    }
  }
}
