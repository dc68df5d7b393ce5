/** `constexpr_bubble_sort` from src/core.h: an in-place sort over any comparison. */
module BubbleSort {

  /** `less` orders its arguments, possibly with ties: two elements tie when neither is less. */
  ghost predicate StrictWeakOrder<T(!new)>(less: (T, T) -> bool) {
    && (forall x, y :: less(x, y) ==> !less(y, x))
    && (forall x, y, z :: !less(y, x) && !less(z, y) ==> !less(z, x))
  }

  ghost predicate SortedBy<T(!new)>(s: seq<T>, less: (T, T) -> bool) {
    forall i, j :: 0 <= i < j < |s| ==> !less(s[j], s[i])
  }

  /** Nothing before index `k` is above the element at `k`. */
  ghost predicate Tops<T(!new)>(s: seq<T>, less: (T, T) -> bool, k: int)
    requires 0 <= k < |s|
  {
    forall p :: 0 <= p < k ==> !less(s[k], s[p])
  }

  /** Every position from `from` on holds an element that nothing before it is above. */
  ghost predicate TopsFrom<T(!new)>(s: seq<T>, less: (T, T) -> bool, from: int) {
    forall q :: 0 <= q < |s| && from <= q ==> Tops(s, less, q)
  }

  /** One comparison of the inner loop. */
  function Exchange<T>(s: seq<T>, less: (T, T) -> bool, j: nat): (r: seq<T>)
    requires j + 1 < |s|
    ensures |r| == |s|
  {
    if less(s[j], s[j + 1]) then s else s[j := s[j + 1]][j + 1 := s[j]]
  }

  lemma ExchangeKeepsTops<T(!new)>(s: seq<T>, less: (T, T) -> bool, j: nat, q: nat)
    requires StrictWeakOrder(less)
    requires j + 1 < |s| && q < |s|
    requires Tops(s, less, q) && Tops(s, less, j)
    requires q == j ==> j + 1 < |s| && Tops(s, less, j + 1)
    ensures Tops(Exchange(s, less, j), less, q)
  {
  }

  lemma ExchangeAdvances<T(!new)>(s: seq<T>, less: (T, T) -> bool, j: nat)
    requires StrictWeakOrder(less)
    requires j + 1 < |s| && Tops(s, less, j)
    ensures Tops(Exchange(s, less, j), less, j + 1)
    ensures multiset(Exchange(s, less, j)) == multiset(s)
  {
  }

  lemma SortedWhenAllTop<T(!new)>(s: seq<T>, less: (T, T) -> bool)
    requires TopsFrom(s, less, 0)
    ensures SortedBy(s, less)
  {
    forall i, j | 0 <= i < j < |s| ensures !less(s[j], s[i]) {
      assert Tops(s, less, j);
    }
  }

  method CompareAndSwap<T(!new)>(arr: array<T>, cmp: (T, T) -> bool, j: nat)
    requires j + 1 < arr.Length
    modifies arr
    ensures arr[..] == Exchange(old(arr[..]), cmp, j)
  {
    if cmp(arr[j], arr[j + 1]) {
      // nothing
    } else {
      arr[j], arr[j + 1] := arr[j + 1], arr[j];
    }
  }

  /** The inner loop's invariant: `i` passes are finished and the running one has reached position `j`. */
  ghost predicate InPass<T(!new)>(s: seq<T>, less: (T, T) -> bool, i: nat, j: nat, all: multiset<T>) {
    && i < |s| && j < |s|
    && multiset(s) == all
    && Tops(s, less, j)
    && TopsFrom(s, less, |s| - i)
    && (|s| - i - 1 <= j ==> Tops(s, less, |s| - i - 1))
  }

  lemma PassStep<T(!new)>(s: seq<T>, less: (T, T) -> bool, i: nat, j: nat, all: multiset<T>)
    requires StrictWeakOrder(less)
    requires j + 1 < |s| && InPass(s, less, i, j, all)
    ensures InPass(Exchange(s, less, j), less, i, j + 1, all)
  {
    ExchangeAdvances(s, less, j);
    forall q | 0 <= q < |s| && |s| - i <= q ensures Tops(Exchange(s, less, j), less, q) {
      ExchangeKeepsTops(s, less, j, q);
    }
    if |s| - i - 1 <= j {
      ExchangeKeepsTops(s, less, j, |s| - i - 1);
    }
  }

  lemma PassDone<T(!new)>(s: seq<T>, less: (T, T) -> bool, i: nat, all: multiset<T>)
    requires i < |s| && InPass(s, less, i, |s| - 1, all)
    ensures TopsFrom(s, less, |s| - i - 1)
  {
  }

  /**
   * Every pass compares all neighbours and swaps them unless the left one is strictly less, so ties are swapped as
   * well. After `i` passes the last `i` positions are in their final ranks.
   */
  method Sort<T(!new)>(arr: array<T>, cmp: (T, T) -> bool)
    requires StrictWeakOrder(cmp)
    modifies arr
    ensures multiset(arr[..]) == multiset(old(arr[..]))
    ensures SortedBy(arr[..], cmp)
  {
    ghost var all := multiset(arr[..]);
    var size := arr.Length;
    var i := 0;
    while i < size
      invariant 0 <= i <= size
      invariant multiset(arr[..]) == all
      invariant TopsFrom(arr[..], cmp, size - i)
    {
      var j := 0;
      while j < size - 1
        invariant 0 <= j <= size - 1
        invariant InPass(arr[..], cmp, i, j, all)
      {
        PassStep(arr[..], cmp, i, j, all);
        CompareAndSwap(arr, cmp, j);
        j := j + 1;
      }
      PassDone(arr[..], cmp, i, all);
      i := i + 1;
    }
    SortedWhenAllTop(arr[..], cmp);
  }
}
