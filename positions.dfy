/** Removal from lists addressed by 1-based positions, as the user sees them. */
module Positions {

  /** ArrayList.remove(i - 1): drops the element at 1-based position i. */
  function RemoveAt<T>(s: seq<T>, i: int): (r: seq<T>)
    requires 1 <= i <= |s|
    ensures |r| == |s| - 1
    ensures forall k :: 0 <= k < i - 1 ==> r[k] == s[k]
    ensures forall k :: i - 1 <= k < |r| ==> r[k] == s[k + 1]
  {
    s[..i - 1] + s[i..]
  }

  /** s without the elements at the 1-based positions in del; the rest keep
      their relative order. */
  function Without<T>(s: seq<T>, del: set<int>): (r: seq<T>)
    ensures |r| <= |s|
  {
    if |s| == 0 then []
    else Without(s[..|s| - 1], del) + (if |s| in del then [] else [s[|s| - 1]])
  }

  /** Positions beyond the end of s do not matter. */
  lemma {:induction false} WithoutIgnoresBeyond<T>(s: seq<T>, del: set<int>, extra: set<int>)
    requires forall e :: e in extra ==> e > |s|
    ensures Without(s, del + extra) == Without(s, del)
  {
    if |s| > 0 {
      WithoutIgnoresBeyond(s[..|s| - 1], del, extra);
    }
  }

  /** Removing only positions above k keeps the first k elements in place. */
  lemma {:induction false} WithoutKeepsPrefix<T>(s: seq<T>, del: set<int>, k: nat)
    requires k <= |s|
    requires forall e :: e in del ==> e > k
    ensures |Without(s, del)| >= k && Without(s, del)[..k] == s[..k]
  {
    if |s| > k {
      WithoutKeepsPrefix(s[..|s| - 1], del, k);
      assert s[..|s| - 1][..k] == s[..k];
    } else if k > 0 {
      var init := s[..k - 1];
      WithoutKeepsPrefix(init, del, k - 1);
      assert Without(init, del) == init;
      assert s == init + [s[k - 1]];
    }
  }

  /** Removing position d after every position above it has gone is the same
      as removing d together with them: why the removals go highest-first. */
  lemma {:induction false} RemoveBelowRemoved<T>(s: seq<T>, del: set<int>, d: int)
    requires 1 <= d <= |s|
    requires forall e :: e in del ==> e > d
    ensures |Without(s, del)| >= d
    ensures Without(s, del)[d - 1] == s[d - 1]
    ensures RemoveAt(Without(s, del), d) == Without(s, del + {d})
  {
    WithoutKeepsPrefix(s, del, d);
    assert Without(s, del)[d - 1] == Without(s, del)[..d][d - 1];
    var n := |s|;
    var init := s[..n - 1];
    if n == d {
      WithoutKeepsPrefix(init, del, d - 1);
      WithoutKeepsPrefix(init, del + {d}, d - 1);
      assert Without(init, del) == init;
      assert Without(init, del + {d}) == init;
    } else {
      RemoveBelowRemoved(init, del, d);
      var tail := if n in del then [] else [s[n - 1]];
      assert Without(s, del) == Without(init, del) + tail;
      assert Without(s, del + {d}) == Without(init, del + {d}) + tail;
      RemoveAtAppend(Without(init, del), tail, d);
    }
  }

  lemma {:induction false} RemoveAtAppend<T>(w: seq<T>, tail: seq<T>, d: int)
    requires 1 <= d <= |w|
    ensures RemoveAt(w + tail, d) == RemoveAt(w, d) + tail
  {
    assert (w + tail)[..d - 1] == w[..d - 1];
    assert (w + tail)[d..] == w[d..] + tail;
  }

  /** Removing no position keeps the list. */
  lemma {:induction false} WithoutNothing<T>(s: seq<T>)
    ensures Without(s, {}) == s
  {
    WithoutKeepsPrefix(s, {}, |s|);
  }

  /** Removing a set of valid positions shortens the list by its size. */
  lemma {:induction false} WithoutLength<T>(s: seq<T>, del: set<int>)
    requires forall e :: e in del ==> 1 <= e <= |s|
    ensures |Without(s, del)| == |s| - |del|
  {
    if |s| == 0 {
      assert forall e :: e !in del;
      assert del == {};
    } else {
      var n := |s|;
      var init := s[..n - 1];
      var below := del - {n};
      WithoutIgnoresBeyond(init, below, del - below);
      assert below + (del - below) == del;
      WithoutLength(init, below);
      if n in del {
        assert del == below + {n};
      } else {
        assert below == del;
      }
    }
  }
}
