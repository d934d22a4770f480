/** Searches over sequences of internal keys.

    `BinarySearch` models `List<T>.BinarySearch` of the .NET runtime, which
    `Level.CeilingEntryIndex` delegates to: it halves `[lo, hi]`, returns the
    index of an element equal to the key as soon as it meets one, and
    otherwise returns the bitwise complement `-(lo + 1)` of the insertion
    point. `LowerBound` is a linear reference definition of "the leftmost
    element not below the key". */
module Search {
  import opened Keys

  predicate SortedKeys(list: seq<InternalKey>) {
    forall i, j :: 0 <= i < j < |list| ==> IkLeq(list[i], list[j])
  }

  predicate StrictlySortedKeys(list: seq<InternalKey>) {
    forall i, j :: 0 <= i < j < |list| ==> IkLess(list[i], list[j])
  }

  /** Index of the first element of `list` that is not below `key`, or `|list|`. */
  function LowerBound(list: seq<InternalKey>, key: InternalKey): (i: nat)
    ensures i <= |list|
    ensures forall j :: 0 <= j < i ==> IkLess(list[j], key)
    ensures i < |list| ==> !IkLess(list[i], key)
  {
    if |list| == 0 then 0
    else if !IkLess(list[0], key) then 0
    else 1 + LowerBound(list[1..], key)
  }

  /** The two facts that `LowerBound` ensures pin down a unique index. */
  lemma LowerBoundUnique(list: seq<InternalKey>, key: InternalKey, i: nat)
    requires i <= |list|
    requires forall j :: 0 <= j < i ==> IkLess(list[j], key)
    requires i < |list| ==> !IkLess(list[i], key)
    ensures i == LowerBound(list, key)
  {
  }

  /** The .NET binary search over the inclusive range `[lo, hi]`. */
  function BinarySearchRange(list: seq<InternalKey>, key: InternalKey, lo: int, hi: int): (r: int)
    requires 0 <= lo <= hi + 1 <= |list|
    ensures 0 <= r ==> lo <= r <= hi && list[r] == key
    ensures r < 0 ==> lo <= -(r + 1) <= hi + 1
    decreases hi - lo + 1
  {
    if lo > hi then -(lo + 1)
    else
      var i := lo + (hi - lo) / 2;
      var order := Compare(list[i], key);
      if order == 0 then i
      else if order < 0 then BinarySearchRange(list, key, i + 1, hi)
      else BinarySearchRange(list, key, lo, i - 1)
  }

  /** On a sorted list a miss reports the exact insertion point: everything
      before it is below the key and everything from it on is above. */
  lemma {:induction false} BinarySearchRangeMiss(list: seq<InternalKey>, key: InternalKey, lo: int, hi: int)
    requires 0 <= lo <= hi + 1 <= |list|
    requires SortedKeys(list)
    requires forall j :: 0 <= j < lo ==> IkLess(list[j], key)
    requires forall j :: hi < j < |list| ==> IkLess(key, list[j])
    ensures var r := BinarySearchRange(list, key, lo, hi);
      r < 0 ==>
        && (forall j :: 0 <= j < -(r + 1) ==> IkLess(list[j], key))
        && (forall j :: -(r + 1) <= j < |list| ==> IkLess(key, list[j]))
    decreases hi - lo + 1
  {
    if lo <= hi {
      var i := lo + (hi - lo) / 2;
      var order := Compare(list[i], key);
      if order < 0 {
        forall j | 0 <= j <= i
          ensures IkLess(list[j], key)
        {
          if j < i {
            IkLeqLessTransitive(list[j], list[i], key);
          }
        }
        BinarySearchRangeMiss(list, key, i + 1, hi);
      } else if order > 0 {
        forall j | i <= j < |list|
          ensures IkLess(key, list[j])
        {
          if i < j {
            IkLessLeqTransitive(key, list[i], list[j]);
          }
        }
        BinarySearchRangeMiss(list, key, lo, i - 1);
      }
    }
  }

  /** `List<T>.BinarySearch(key)` over the whole list. */
  function BinarySearch(list: seq<InternalKey>, key: InternalKey): (r: int)
    ensures 0 <= r ==> r < |list| && list[r] == key
    ensures r < 0 ==> -(r + 1) <= |list|
    ensures SortedKeys(list) && r < 0 ==>
      && (forall j :: 0 <= j < -(r + 1) ==> IkLess(list[j], key))
      && (forall j :: -(r + 1) <= j < |list| ==> IkLess(key, list[j]))
  {
    var r := BinarySearchRange(list, key, 0, |list| - 1);
    assert SortedKeys(list) ==> r < 0 ==>
      && (forall j :: 0 <= j < -(r + 1) ==> IkLess(list[j], key))
      && (forall j :: -(r + 1) <= j < |list| ==> IkLess(key, list[j]))
    by {
      if SortedKeys(list) {
        BinarySearchRangeMiss(list, key, 0, |list| - 1);
      }
    }
    r
  }
}
