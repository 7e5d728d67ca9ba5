/** The library orderings the core relies on: Collections.sort over Integers,
    Arrays.sort over Strings (String.compareTo, lexicographic by character)
    and Collections.reverse. */
module Sorting {
  import opened JavaText

  /** le is total and transitive (and so reflexive). */
  ghost predicate TotalOrder<T(!new)>(le: (T, T) -> bool) {
    && (forall x, y :: le(x, y) || le(y, x))
    && (forall x, y, z :: le(x, y) && le(y, z) ==> le(x, z))
  }

  ghost predicate SortedBy<T>(le: (T, T) -> bool, s: seq<T>) {
    forall i, j :: 0 <= i < j < |s| ==> le(s[i], s[j])
  }

  /** Inserts x into the sorted sequence s. */
  function Insert<T(!new)>(le: (T, T) -> bool, x: T, s: seq<T>): (r: seq<T>)
    requires TotalOrder(le) && SortedBy(le, s)
    ensures SortedBy(le, r)
    ensures multiset(r) == multiset(s) + multiset{x}
  {
    if |s| == 0 then [x]
    else if le(x, s[0]) then
      SortedFront(le, x, s);
      [x] + s
    else
      SortedTail(le, s);
      var rest := Insert(le, x, s[1..]);
      SortedBehind(le, x, s, rest);
      [s[0]] + rest
  }

  lemma {:induction false} SortedTail<T>(le: (T, T) -> bool, s: seq<T>)
    requires SortedBy(le, s) && |s| > 0
    ensures SortedBy(le, s[1..])
  {
    forall i, j | 0 <= i < j < |s| - 1 ensures le(s[1..][i], s[1..][j]) {
      assert s[1..][i] == s[i + 1] && s[1..][j] == s[j + 1];
    }
  }

  /** An element at most the first of a sorted sequence may go in front. */
  lemma {:induction false} SortedFront<T(!new)>(le: (T, T) -> bool, x: T, s: seq<T>)
    requires TotalOrder(le) && SortedBy(le, s) && |s| > 0 && le(x, s[0])
    ensures SortedBy(le, [x] + s)
    ensures multiset([x] + s) == multiset(s) + multiset{x}
  {
    var r := [x] + s;
    forall i, j | 0 <= i < j < |r| ensures le(r[i], r[j]) {
      assert r[j] == s[j - 1];
      if i > 0 {
        assert r[i] == s[i - 1];
      } else if j > 1 {
        assert le(s[0], s[j - 1]);
      }
    }
  }

  /** The first of a sorted sequence goes in front of x inserted into the rest. */
  lemma {:induction false} SortedBehind<T(!new)>(le: (T, T) -> bool, x: T, s: seq<T>, rest: seq<T>)
    requires TotalOrder(le) && SortedBy(le, s) && |s| > 0 && !le(x, s[0])
    requires SortedBy(le, rest) && multiset(rest) == multiset(s[1..]) + multiset{x}
    ensures SortedBy(le, [s[0]] + rest)
    ensures multiset([s[0]] + rest) == multiset(s) + multiset{x}
  {
    assert s == [s[0]] + s[1..];
    assert le(s[0], x);
    var r := [s[0]] + rest;
    forall i, j | 0 <= i < j < |r| ensures le(r[i], r[j]) {
      var y := r[j];
      assert y == rest[j - 1];
      if i > 0 {
        assert r[i] == rest[i - 1];
      } else {
        assert y in multiset(rest);
        if y != x {
          assert y in multiset(s[1..]);
          var k :| 0 <= k < |s[1..]| && s[1..][k] == y;
          assert s[1 + k] == y;
        }
      }
    }
  }

  /** The sorted permutation of s: the result the library sort produces. */
  function Sort<T(!new)>(le: (T, T) -> bool, s: seq<T>): (r: seq<T>)
    requires TotalOrder(le)
    ensures SortedBy(le, r)
    ensures multiset(r) == multiset(s)
  {
    if |s| == 0 then []
    else
      assert s == [s[0]] + s[1..];
      Insert(le, s[0], Sort(le, s[1..]))
  }

  /** Collections.reverse. */
  function Reverse<T>(s: seq<T>): (r: seq<T>)
    ensures |r| == |s|
    ensures forall i :: 0 <= i < |s| ==> r[i] == s[|s| - 1 - i]
  {
    if |s| == 0 then [] else Reverse(s[1..]) + [s[0]]
  }

  /** In the reverse of a sorted sequence, a later element is at most an
      earlier one. */
  lemma {:induction false} ReversedSortedPair<T>(le: (T, T) -> bool, q: seq<T>, i: int, j: int)
    requires SortedBy(le, q) && 0 <= i < j < |q|
    ensures le(Reverse(q)[j], Reverse(q)[i])
  {
    ReverseAt(q, j);
    ReverseAt(q, i);
    SortedPair(le, q, |q| - 1 - j, |q| - 1 - i);
  }

  /** The reverse of s without its last element is the reverse of s without
      its first. */
  lemma {:induction false} ReverseOfInit<T>(s: seq<T>)
    requires |s| > 0
    ensures Reverse(s)[0] == s[|s| - 1]
    ensures Reverse(s)[1..] == Reverse(s[..|s| - 1])
  {
    var a := Reverse(s)[1..];
    var b := Reverse(s[..|s| - 1]);
    assert |a| == |b|;
    forall k | 0 <= k < |a| ensures a[k] == b[k] {
      assert a[k] == Reverse(s)[k + 1];
    }
  }

  /** The prefix up to i + 1 ends with s[i] and starts with the prefix up to i. */
  lemma {:induction false} InitOfPrefix<T>(s: seq<T>, i: nat)
    requires i < |s|
    ensures |s[..i + 1]| == i + 1 && s[..i + 1][i] == s[i] && s[..i + 1][..i] == s[..i]
  {
  }

  lemma {:induction false} ReverseTwo<T>(a: T, b: T)
    ensures Reverse([a, b]) == [b, a]
  {
    assert [a, b][1..] == [b];
    assert Reverse([b]) == Reverse([b][1..]) + [b];
  }

  lemma {:induction false} ReverseAt<T>(q: seq<T>, k: int)
    requires 0 <= k < |q|
    ensures Reverse(q)[k] == q[|q| - 1 - k]
  {
  }

  lemma {:induction false} SortedPair<T>(le: (T, T) -> bool, q: seq<T>, a: int, b: int)
    requires SortedBy(le, q) && 0 <= a < b < |q|
    ensures le(q[a], q[b])
  {
  }

  // ---------------------------------------------------------------------------
  // Integer order

  predicate IntLe(a: int, b: int) {
    a <= b
  }

  lemma {:induction false} IntLeIsTotalOrder()
    ensures TotalOrder(IntLe)
  {
  }

  /** Sorting distinct integers ascending and reversing them lists them in
      strictly descending order. */
  lemma {:induction false} SortedReversedDescending(s: seq<int>)
    requires forall i, j :: 0 <= i < j < |s| ==> s[i] != s[j]
    ensures var r := Reverse(Sort(IntLe, s));
      && multiset(r) == multiset(s)
      && forall i, j :: 0 <= i < j < |r| ==> r[i] > r[j]
  {
    IntLeIsTotalOrder();
    var q := Sort(IntLe, s);
    var r := Reverse(q);
    DistinctPermutation(s, q);
    assert multiset(r) == multiset(q) by {
      ReverseSameMultiset(q);
    }
  }

  /** A permutation of a sequence of distinct values has distinct values. */
  lemma {:induction false} DistinctPermutation<T>(s: seq<T>, q: seq<T>)
    requires forall a, b :: 0 <= a < b < |s| ==> s[a] != s[b]
    requires multiset(q) == multiset(s)
    ensures forall i, j :: 0 <= i < j < |q| ==> q[i] != q[j]
  {
    forall i, j | 0 <= i < j < |q| ensures q[i] != q[j] {
      if q[i] == q[j] {
        var x := q[i];
        assert multiset{x, x} <= multiset(q) by {
          assert q == q[..i] + [x] + q[i + 1..j] + [x] + q[j + 1..];
        }
        DistinctCountsOnce(s, x);
        assert false;
      }
    }
  }

  lemma {:induction false} DistinctCountsOnce<T>(s: seq<T>, x: T)
    requires forall a, b :: 0 <= a < b < |s| ==> s[a] != s[b]
    ensures multiset(s)[x] <= 1
  {
    if |s| > 0 {
      var t := s[..|s| - 1];
      assert s == t + [s[|s| - 1]];
      DistinctCountsOnce(t, x);
      if x == s[|s| - 1] {
        assert x !in t;
      }
    }
  }

  /** Sequences with the same multiset have the same members. */
  lemma {:induction false} SameMembers<T>(a: seq<T>, b: seq<T>)
    requires multiset(a) == multiset(b)
    ensures forall w :: w in a <==> w in b
  {
    forall w ensures w in a <==> w in b {
      assert w in a <==> w in multiset(a);
      assert w in b <==> w in multiset(b);
    }
  }

  lemma {:induction false} ReverseSameMultiset<T>(s: seq<T>)
    ensures multiset(Reverse(s)) == multiset(s)
  {
    if |s| > 0 {
      ReverseSameMultiset(s[1..]);
      assert s == [s[0]] + s[1..];
      assert Reverse(s) == Reverse(s[1..]) + [s[0]];
    }
  }

  // ---------------------------------------------------------------------------
  // String order

  /** a.compareTo(b) <= 0: a is a prefix of b, or at the first position where
      they differ a has the smaller character. */
  predicate LexLe(a: string, b: string)
    decreases |a|
  {
    |a| == 0 || (|b| > 0 && (a[0] < b[0] || (a[0] == b[0] && LexLe(a[1..], b[1..]))))
  }

  lemma {:induction false} LexLeTotal(a: string, b: string)
    ensures LexLe(a, b) || LexLe(b, a)
    decreases |a|
  {
    if |a| > 0 && |b| > 0 && a[0] == b[0] {
      LexLeTotal(a[1..], b[1..]);
    }
  }

  lemma {:induction false} LexLeTransitive(a: string, b: string, c: string)
    requires LexLe(a, b) && LexLe(b, c)
    ensures LexLe(a, c)
    decreases |a|
  {
    if |a| > 0 && a[0] == b[0] && b[0] == c[0] {
      LexLeTransitive(a[1..], b[1..], c[1..]);
    }
  }

  /** Strings that are each at most the other are equal. */
  lemma {:induction false} LexLeAntisymmetric(a: string, b: string)
    requires LexLe(a, b) && LexLe(b, a)
    ensures a == b
    decreases |a|
  {
    if |a| > 0 {
      LexLeAntisymmetric(a[1..], b[1..]);
      assert a == [a[0]] + a[1..] && b == [b[0]] + b[1..];
    }
  }

  lemma {:induction false} LexLeIsTotalOrder()
    ensures TotalOrder(LexLe)
  {
    forall a, b ensures LexLe(a, b) || LexLe(b, a) {
      LexLeTotal(a, b);
    }
    forall a, b, c | LexLe(a, b) && LexLe(b, c) ensures LexLe(a, c) {
      LexLeTransitive(a, b, c);
    }
  }

  function Pow10(n: nat): (p: nat)
    ensures p >= 1
  {
    if n == 0 then 1 else 10 * Pow10(n - 1)
  }

  lemma {:induction false} DigitsValueBound(ds: string)
    requires AllDigits(ds)
    ensures DigitsValue(ds) < Pow10(|ds|)
  {
    if |ds| > 0 {
      DigitsValueBound(ds[..|ds| - 1]);
    }
  }

  /** Reading the first digit off the front of a digit string. */
  lemma {:induction false} DigitsValueFront(ds: string)
    requires AllDigits(ds) && |ds| > 0
    ensures DigitsValue(ds) == DigitValue(ds[0]) * Pow10(|ds| - 1) + DigitsValue(ds[1..])
  {
    var n := |ds|;
    if n > 1 {
      var init := ds[..n - 1];
      var rest := ds[1..];
      DigitsValueFront(init);
      FrontSlices(ds);
      assert DigitsValue(rest) == DigitsValue(init[1..]) * 10 + DigitValue(ds[n - 1]);
      assert Pow10(n - 1) == 10 * Pow10(n - 2);
      FrontArith(DigitValue(ds[0]), Pow10(n - 2), DigitsValue(init[1..]), DigitValue(ds[n - 1]));
    }
  }

  lemma {:induction false} FrontSlices<T>(s: seq<T>)
    requires |s| > 1
    ensures var init := s[..|s| - 1]; var rest := s[1..];
      && init[0] == s[0]
      && init[1..] == rest[..|rest| - 1]
      && rest[|rest| - 1] == s[|s| - 1]
  {
  }

  lemma {:induction false} FrontArith(d: int, p: int, r: int, last: int)
    ensures (d * p + r) * 10 + last == d * (10 * p) + (r * 10 + last)
  {
  }

  /** Between digit strings of the same length the string order is the
      numeric order. */
  lemma {:induction false} LexLeIsNumericForEqualLength(a: string, b: string)
    requires AllDigits(a) && AllDigits(b) && |a| == |b|
    ensures LexLe(a, b) <==> DigitsValue(a) <= DigitsValue(b)
    decreases |a|
  {
    if |a| > 0 {
      var p := Pow10(|a| - 1);
      DigitsValueFront(a);
      DigitsValueFront(b);
      DigitsValueBound(a[1..]);
      DigitsValueBound(b[1..]);
      var da, db := DigitValue(a[0]), DigitValue(b[0]);
      if da < db {
        FirstDigitDecides(da, db, DigitsValue(a[1..]), DigitsValue(b[1..]), p);
      } else if db < da {
        FirstDigitDecides(db, da, DigitsValue(b[1..]), DigitsValue(a[1..]), p);
      } else {
        LexLeIsNumericForEqualLength(a[1..], b[1..]);
      }
    }
  }

  lemma {:induction false} FirstDigitDecides(da: nat, db: nat, ra: nat, rb: nat, p: nat)
    requires da < db && ra < p
    ensures da * p + ra < db * p + rb
  {
    MulLe(da + 1, db, p);
    assert (da + 1) * p == da * p + p;
  }

  lemma {:induction false} MulLe(x: nat, y: nat, p: nat)
    requires x <= y
    ensures x * p <= y * p
  {
  }

  /** With different lengths the orders disagree: "10" sorts before "9". */
  lemma {:induction false} StringSortIsNotNumeric()
    ensures TotalOrder(LexLe) && Sort(LexLe, ["9", "10"]) == ["10", "9"]
    ensures DigitsValue("10") > DigitsValue("9")
  {
    LexLeIsTotalOrder();
    assert LexLe("10", "9");
    assert !LexLe("9", "10");
  }
}
