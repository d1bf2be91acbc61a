/** Laws of concatenation, and how multisets follow the sequences they come from. */
module Sequences {

  lemma {:induction false} Assoc<T>(a: seq<T>, b: seq<T>, c: seq<T>)
    ensures (a + b) + c == a + (b + c)
  {
  }

  lemma {:induction false} MultisetTail<T>(p: seq<T>)
    requires p != []
    ensures multiset(p) == multiset(p[1..]) + multiset{p[0]}
  {
    assert p == [p[0]] + p[1..];
  }

  lemma {:induction false} MultisetWithout<T>(p: seq<T>, j: nat)
    requires j < |p|
    ensures multiset(p) == multiset(p[..j] + p[j + 1..]) + multiset{p[j]}
  {
    assert p == p[..j] + ([p[j]] + p[j + 1..]);
  }

  lemma Cancel<T>(m: multiset<T>, n: multiset<T>, x: T)
    requires m + multiset{x} == n + multiset{x}
    ensures m == n
  {
    assert m == (m + multiset{x}) - multiset{x};
    assert n == (n + multiset{x}) - multiset{x};
  }

  lemma {:induction false} SameLength<T>(a: seq<T>, b: seq<T>)
    requires multiset(a) == multiset(b)
    ensures |a| == |b|
  {
    assert |multiset(a)| == |multiset(b)|;
  }

  // ---------- indices ----------

  ghost predicate Distinct(q: seq<nat>)
  {
    forall i, j :: 0 <= i < j < |q| ==> q[i] != q[j]
  }

  ghost predicate Covers(q: seq<nat>, n: nat)
  {
    forall i: nat :: i < n ==> i in q
  }

  ghost predicate Below(q: seq<nat>, n: nat)
  {
    forall k :: 0 <= k < |q| ==> q[k] < n
  }

  function Without(q: seq<nat>, j: nat): (r: seq<nat>)
    requires j < |q|
    ensures |r| == |q| - 1
    ensures forall k :: 0 <= k < |r| ==> r[k] == q[if k < j then k else k + 1]
  {
    q[..j] + q[j + 1..]
  }

  /** A sequence that misses no index below n has at least n entries. */
  lemma {:induction false} CoverNeedsLength(q: seq<nat>, n: nat)
    requires Covers(q, n)
    ensures |q| >= n
  {
    if n > 0 {
      var last: nat := n - 1;
      assert last in q;
      var j :| 0 <= j < |q| && q[j] == last;
      var rest := Without(q, j);
      forall i: nat | i < n - 1 ensures i in rest {
        assert i in q;
        var k :| 0 <= k < |q| && q[k] == i;
        assert rest[if k < j then k else k - 1] == i;
      }
      CoverNeedsLength(rest, n - 1);
    }
  }

  lemma {:induction false} FirstBelow(q: seq<nat>, n: nat)
    requires Below(q, n)
    ensures q == [] || q[0] < n
  {
  }

  /** Distinct indices below n number at most n; if they number n they miss none. */
  lemma {:induction false} DistinctFits(q: seq<nat>, n: nat)
    requires Distinct(q) && Below(q, n)
    ensures |q| <= n
    ensures |q| == n ==> Covers(q, n)
  {
    if n == 0 {
      FirstBelow(q, n);
    } else if j :| 0 <= j < |q| && q[j] == n - 1 {
      var rest := Without(q, j);
      DistinctFits(rest, n - 1);
      if |q| == n {
        forall i: nat | i < n ensures i in q {
          if i == n - 1 {
            assert q[j] == i;
          } else {
            assert i in rest;
            var k :| 0 <= k < |rest| && rest[k] == i;
            assert q[if k < j then k else k + 1] == i;
          }
        }
      }
    } else {
      DistinctFits(q, n - 1);
    }
  }

  function Pick<T>(q: seq<nat>, all: seq<T>): (r: seq<T>)
    requires Below(q, |all|)
  {
    seq(|q|, k requires 0 <= k < |q| => all[q[k]])
  }

  lemma {:induction false} PickWithout<T>(q: seq<nat>, all: seq<T>, j: nat)
    requires Distinct(q) && Below(q, |all|) && j < |q| && q[j] == |all| - 1
    ensures Distinct(Without(q, j)) && Below(Without(q, j), |all| - 1)
    ensures var p := Pick(q, all);
            Pick(Without(q, j), all[..|all| - 1]) == p[..j] + p[j + 1..]
  {
  }

  /** Picking by distinct indices that miss none is a permutation. */
  lemma {:induction false} PickPermutes<T>(q: seq<nat>, all: seq<T>)
    requires Distinct(q) && Below(q, |all|) && |q| == |all|
    ensures multiset(Pick(q, all)) == multiset(all)
    decreases |all|
  {
    var n := |all|;
    if n == 0 {
      assert Pick(q, all) == all;
    } else {
      DistinctFits(q, n);
      var last: nat := n - 1;
      assert last in q;
      var j :| 0 <= j < |q| && q[j] == last;
      var rest := Without(q, j);
      var front := all[..n - 1];
      PickPermutes(rest, front);
      PickWithout(q, all, j);
      MultisetWithout(Pick(q, all), j);
      MultisetWithout(all, last);
      assert all[..last] + all[last + 1..] == front;
    }
  }
}
