/** `FindFile` initialises its upper bound to the last index, so when every
    file lies below the target it returns that index instead of the file
    count, and `SomeFileOverlapsRange` then compares the query's upper bound
    with the last file's smallest key. This module gives the search with the
    upper bound at the file count, proves that the overlap test built on it
    is exact, and exhibits a level on which the two tests disagree. */
module OverlapFinding {
  import opened Keys
  import opened Search
  import opened LevelIndex

  /** Binary search for the first file whose largest key is not below
      `target`, with `right` starting at the file count. */
  method FindFileIntended(level: Level, target: InternalKey) returns (r: nat)
    ensures r <= |level.files|
    ensures r < |level.files| ==> !IkLess(level.files[r].largest, target)
    ensures SortedKeys(Largests(level.files)) ==> r == LowerBound(Largests(level.files), target)
  {
    var files := level.files;
    var left := 0;
    var right := |files|;
    while left < right
      invariant 0 <= left <= right <= |files|
      invariant right < |files| ==> !IkLess(files[right].largest, target)
      invariant SortedKeys(Largests(files)) ==>
        forall j :: 0 <= j < left ==> IkLess(files[j].largest, target)
      decreases right - left
    {
      var mid := (left + right) / 2;
      if Compare(files[mid].largest, target) < 0 {
        if SortedKeys(Largests(files)) {
          forall j | 0 <= j <= mid
            ensures IkLess(files[j].largest, target)
          {
            if j < mid {
              assert IkLeq(Largests(files)[j], Largests(files)[mid]);
              IkLeqLessTransitive(files[j].largest, files[mid].largest, target);
            }
          }
        }
        left := mid + 1;
      } else {
        right := mid;
      }
    }
    r := right;
    if SortedKeys(Largests(files)) {
      LowerBoundUnique(Largests(files), target, r);
    }
  }

  /** The overlap test on top of `FindFileIntended`: exact on a sorted,
      disjoint level. */
  method SomeFileOverlapsRangeIntended(level: Level, smallestUserKey: UserKey, largestUserKey: UserKey)
    returns (b: bool)
    ensures |level.files| == 0 ==> !b
    ensures SortedDisjoint(level.files) ==>
      (b <==> AnyOverlap(level.files, smallestUserKey, largestUserKey))
  {
    var probe := InternalKey(smallestUserKey, MaxSequenceNumber, Value);
    var index := FindFileIntended(level, probe);
    b := index < |level.files| && !LexLess(largestUserKey, level.files[index].smallest.userKey);
    if SortedDisjoint(level.files) {
      var files := level.files;
      SortedDisjointLargests(files);
      ProbeComparesUserKeys(files, smallestUserKey);
      if index < |files| {
        OverlapAtLowerBound(files, smallestUserKey, largestUserKey, index);
      } else {
        assert AllBelow(files, smallestUserKey);
        assert !AnyOverlap(files, smallestUserKey, largestUserKey);
      }
    }
  }

  /** One file with user keys `[10, 20]` and the query range `[30, 40]`. */
  function WitnessLevel(): Level {
    Level(1, [FileMetaData(7, 1024, InternalKey([10], 1, Value), InternalKey([20], 1, Value), 100)])
  }

  /** On the witness level the query range meets no file, yet the test as
      written reports an overlap. */
  lemma AsWrittenFalsePositive()
    ensures SortedDisjoint(WitnessLevel().files)
    ensures !AnyOverlap(WitnessLevel().files, [30], [40])
    ensures OverlapAsWritten(WitnessLevel().files, [30], [40])
  {
    var f := WitnessLevel().files[0];
    assert LexLess(f.smallest.userKey, f.largest.userKey);
    assert LexLess(f.largest.userKey, [30]);
    assert !LexLess([40], f.smallest.userKey);
  }

  /** Running both tests on the witness level: the as-written one answers
      `true`, the intended one `false`. */
  method FalsePositiveWitness() returns (asWritten: bool, intended: bool)
    ensures asWritten && !intended
  {
    AsWrittenFalsePositive();
    asWritten := SomeFileOverlapsRange(WitnessLevel(), [30], [40]);
    intended := SomeFileOverlapsRangeIntended(WitnessLevel(), [30], [40]);
  }
}
