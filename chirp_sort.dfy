/**
 * `sortChirpsById`: the chirp slice is sorted in place by id, ascending for
 * the sort parameter "asc" and for any value other than "desc" (the empty
 * string of a missing parameter included), descending for "desc". Go's
 * `slices.SortFunc` is not stable, so nothing is promised about the order of
 * chirps that share an id; the model sorts by adjacent swaps.
 */
module ChirpSort {
  import opened Database

  const AscOrder: string := "asc"
  const DescOrder: string := "desc"

  /** `x` may precede `y` in the requested direction. */
  predicate InOrder(x: Chirp, y: Chirp, descending: bool) {
    if descending then x.id >= y.id else x.id <= y.id
  }

  ghost predicate SortedBy(s: seq<Chirp>, descending: bool) {
    forall i, j :: 0 <= i < j < |s| ==> InOrder(s[i], s[j], descending)
  }

  ghost predicate DistinctIds(s: seq<Chirp>) {
    forall i, j :: 0 <= i < j < |s| ==> s[i].id != s[j].id
  }

  /** Strictly increasing ids, or strictly decreasing ones. */
  ghost predicate StrictlySortedBy(s: seq<Chirp>, descending: bool) {
    forall i, j :: 0 <= i < j < |s| ==> if descending then s[i].id > s[j].id else s[i].id < s[j].id
  }

  method Swap(a: array<Chirp>, i: int, j: int)
    requires 0 <= i < j < a.Length
    modifies a
    ensures a[i] == old(a[j]) && a[j] == old(a[i])
    ensures forall k :: 0 <= k < a.Length && k != i && k != j ==> a[k] == old(a[k])
    ensures multiset(a[..]) == old(multiset(a[..]))
  {
    a[i], a[j] := a[j], a[i];
  }

  /** Insertion sort by adjacent swaps. */
  method SortById(a: array<Chirp>, descending: bool)
    modifies a
    ensures SortedBy(a[..], descending)
    ensures multiset(a[..]) == old(multiset(a[..]))
    ensures DistinctIds(old(a[..])) ==> DistinctIds(a[..])
  {
    var i := 0;
    while i < a.Length
      invariant 0 <= i <= a.Length
      invariant SortedBy(a[..i], descending)
      invariant multiset(a[..]) == old(multiset(a[..]))
      invariant DistinctIds(old(a[..])) ==> DistinctIds(a[..])
    {
      var j := i;
      while j > 0 && !InOrder(a[j - 1], a[j], descending)
        invariant 0 <= j <= i
        invariant forall m, n :: 0 <= m < n <= i && n != j ==> InOrder(a[m], a[n], descending)
        invariant multiset(a[..]) == old(multiset(a[..]))
        invariant DistinctIds(old(a[..])) ==> DistinctIds(a[..])
      {
        Swap(a, j - 1, j);
        j := j - 1;
      }
      i := i + 1;
    }
  }

  /** `sortChirpsById`: sorts the slice in place in the direction the sort
      parameter selects, as a permutation of what it held. */
  method SortChirpsById(chirps: array<Chirp>, sortOrder: string)
    modifies chirps
    ensures SortedBy(chirps[..], sortOrder == DescOrder)
    ensures multiset(chirps[..]) == old(multiset(chirps[..]))
    ensures DistinctIds(old(chirps[..])) ==> StrictlySortedBy(chirps[..], sortOrder == DescOrder)
  {
    var order := sortOrder;
    if order != AscOrder && order != DescOrder {
      order := AscOrder;
    }
    SortById(chirps, order != AscOrder);
    if DistinctIds(old(chirps[..])) {
      SortedDistinctIsStrict(chirps[..], order != AscOrder);
    }
  }

  /** Sorted with no repeated id means strictly sorted. */
  lemma SortedDistinctIsStrict(s: seq<Chirp>, descending: bool)
    requires SortedBy(s, descending) && DistinctIds(s)
    ensures StrictlySortedBy(s, descending)
  {
  }
}
