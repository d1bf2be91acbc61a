/** Sorting by an order on elements, and what any sorted permutation must be. */
module Sorting {
  import opened Sequences

  /** x may stand before y. */
  type Order<!T> = (T, T) -> bool

  /** Any two elements are ordered, and the order is transitive. */
  ghost predicate Linear<T(!new)>(leq: Order<T>)
  {
    && (forall x, y :: leq(x, y) || leq(y, x))
    && (forall x, y, z :: leq(x, y) && leq(y, z) ==> leq(x, z))
  }

  predicate Sorted<T>(leq: Order<T>, s: seq<T>)
  {
    forall i, j :: 0 <= i < j < |s| ==> leq(s[i], s[j])
  }

  function Insert<T>(leq: Order<T>, x: T, s: seq<T>): seq<T>
  {
    if s == [] || leq(x, s[0]) then [x] + s else [s[0]] + Insert(leq, x, s[1..])
  }

  function Sort<T>(leq: Order<T>, s: seq<T>): seq<T>
  {
    if s == [] then [] else Insert(leq, s[0], Sort(leq, s[1..]))
  }

  lemma {:induction false} InsertKeeps<T>(leq: Order<T>, x: T, s: seq<T>)
    ensures multiset(Insert(leq, x, s)) == multiset(s) + multiset{x}
  {
    if s == [] || leq(x, s[0]) {
    } else {
      InsertKeeps(leq, x, s[1..]);
      MultisetTail(s);
      MultisetTail(Insert(leq, x, s));
    }
  }

  /** What is inserted into the tail after s[0] may stand after s[0]. */
  lemma {:induction false} InsertedAfter<T>(leq: Order<T>, x: T, s: seq<T>, k: nat)
    requires s != [] && Sorted(leq, s) && leq(s[0], x) && k < |Insert(leq, x, s[1..])|
    ensures leq(s[0], Insert(leq, x, s[1..])[k])
  {
    var rest := Insert(leq, x, s[1..]);
    InsertKeeps(leq, x, s[1..]);
    assert rest[k] in multiset(rest);
    assert rest[k] == x || rest[k] in s[1..];
  }

  lemma {:induction false} InsertSorts<T(!new)>(leq: Order<T>, x: T, s: seq<T>)
    requires Linear(leq) && Sorted(leq, s)
    ensures Sorted(leq, Insert(leq, x, s))
  {
    if s == [] {
    } else if leq(x, s[0]) {
      assert forall j :: 0 < j < |s| ==> leq(s[0], s[j]);
    } else {
      assert leq(s[0], x);
      InsertSorts(leq, x, s[1..]);
      var rest := Insert(leq, x, s[1..]);
      forall k | 0 <= k < |rest| ensures leq(s[0], rest[k]) {
        InsertedAfter(leq, x, s, k);
      }
    }
  }

  lemma {:induction false} SortSorts<T(!new)>(leq: Order<T>, s: seq<T>)
    requires Linear(leq)
    ensures Sorted(leq, Sort(leq, s)) && multiset(Sort(leq, s)) == multiset(s)
  {
    if s != [] {
      SortSorts(leq, s[1..]);
      InsertSorts(leq, s[0], Sort(leq, s[1..]));
      InsertKeeps(leq, s[0], Sort(leq, s[1..]));
      MultisetTail(s);
    }
  }

  /** Elements that may stand on either side of each other are equal. */
  ghost predicate Keyed<T>(leq: Order<T>, a: seq<T>)
  {
    forall i, j :: 0 <= i < |a| && 0 <= j < |a| && leq(a[i], a[j]) && leq(a[j], a[i]) ==> a[i] == a[j]
  }

  /** An unstable sort has only one possible result when equivalent elements are equal. */
  lemma {:induction false} SortedUnique<T(!new)>(leq: Order<T>, a: seq<T>, b: seq<T>)
    requires Linear(leq) && Sorted(leq, a) && Sorted(leq, b) && multiset(a) == multiset(b) && Keyed(leq, a)
    ensures a == b
    decreases |a|
  {
    SameLength(a, b);
    if a != [] {
      HeadsAgree(leq, a, b);
      TailsAgree(a, b);
      SortedUnique(leq, a[1..], b[1..]);
      assert a == [a[0]] + a[1..] && b == [b[0]] + b[1..];
    }
  }

  lemma {:induction false} TailsAgree<T>(a: seq<T>, b: seq<T>)
    requires a != [] && b != [] && a[0] == b[0] && multiset(a) == multiset(b)
    ensures multiset(a[1..]) == multiset(b[1..])
  {
    MultisetTail(a);
    MultisetTail(b);
    Cancel(multiset(a[1..]), multiset(b[1..]), a[0]);
  }

  lemma {:induction false} HeadsAgree<T(!new)>(leq: Order<T>, a: seq<T>, b: seq<T>)
    requires a != [] && b != [] && Linear(leq)
    requires Sorted(leq, a) && Sorted(leq, b) && multiset(a) == multiset(b) && Keyed(leq, a)
    ensures a[0] == b[0]
  {
    assert a[0] in multiset(b) && b[0] in multiset(a);
    var i :| 0 <= i < |a| && a[i] == b[0];
    var j :| 0 <= j < |b| && b[j] == a[0];
    assert leq(a[0], a[i]) && leq(b[0], b[j]);
  }
}
