/** Strings in code-point order. */
module TextOrder {
  import opened Sorting

  predicate Leq(a: string, b: string)
  {
    a == "" || (b != "" && (a[0] < b[0] || (a[0] == b[0] && Leq(a[1..], b[1..]))))
  }

  /** The strings first differ at position k. */
  ghost predicate DifferAt(a: string, b: string, k: nat)
  {
    k < |a| && k < |b| && a[k] != b[k] && forall j :: 0 <= j < k ==> a[j] == b[j]
  }

  /** The order: a prefix comes first, and otherwise the first differing character decides. */
  lemma {:induction false} LeqMeaning(a: string, b: string)
    ensures a <= b ==> Leq(a, b)
    ensures b <= a && a != b ==> !Leq(a, b)
    ensures forall k: nat :: DifferAt(a, b, k) ==> (Leq(a, b) <==> a[k] < b[k])
  {
    if a != "" && b != "" && a[0] == b[0] {
      LeqMeaning(a[1..], b[1..]);
      assert a == [a[0]] + a[1..] && b == [b[0]] + b[1..];
      forall k: nat | DifferAt(a, b, k) ensures Leq(a, b) <==> a[k] < b[k] {
        forall j | 0 <= j < k - 1 ensures a[1..][j] == b[1..][j] {
          assert a[j + 1] == b[j + 1];
        }
        assert DifferAt(a[1..], b[1..], k - 1);
      }
    }
  }

  lemma {:induction false} LeqTotal(a: string, b: string)
    ensures Leq(a, b) || Leq(b, a)
  {
    if a != "" && b != "" { LeqTotal(a[1..], b[1..]); }
  }

  lemma {:induction false} LeqAntisymmetric(a: string, b: string)
    requires Leq(a, b) && Leq(b, a)
    ensures a == b
  {
    if a != "" && b != "" {
      LeqAntisymmetric(a[1..], b[1..]);
      assert a == [a[0]] + a[1..] && b == [b[0]] + b[1..];
    }
  }

  lemma {:induction false} LeqTransitive(a: string, b: string, c: string)
    requires Leq(a, b) && Leq(b, c)
    ensures Leq(a, c)
  {
    if a != "" && b != "" && c != "" && a[0] == b[0] == c[0] { LeqTransitive(a[1..], b[1..], c[1..]); }
  }

  lemma LeqLinear()
    ensures Linear(Leq)
  {
    forall x, y ensures Leq(x, y) || Leq(y, x) {
      LeqTotal(x, y);
    }
    forall x, y, z | Leq(x, y) && Leq(y, z) ensures Leq(x, z) {
      LeqTransitive(x, y, z);
    }
  }

  lemma {:induction false} SortedText(s: seq<string>)
    ensures Sorted(Leq, Sort(Leq, s)) && multiset(Sort(Leq, s)) == multiset(s)
  {
    LeqLinear();
    SortSorts(Leq, s);
  }

  /** A multiset of strings has one sorted arrangement. */
  lemma {:induction false} SortedTextUnique(a: seq<string>, b: seq<string>)
    requires Sorted(Leq, a) && Sorted(Leq, b) && multiset(a) == multiset(b)
    ensures a == b
  {
    LeqLinear();
    forall i, j | 0 <= i < |a| && 0 <= j < |a| && Leq(a[i], a[j]) && Leq(a[j], a[i]) ensures a[i] == a[j] {
      LeqAntisymmetric(a[i], a[j]);
    }
    SortedUnique(Leq, a, b);
  }
}
