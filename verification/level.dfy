/** The per-level file index (`LevelDB/Impl/Level.cs`).

    A level owns an ordered list of file descriptors. Point lookups pick the
    candidate files that may hold the key (every file whose user-key range
    contains it at level 0, at most one file found by binary search above
    level 0), probe them in list order, and report which file to charge for
    an extra seek. The table cache is a parameter: a function from a file to
    its entries in iterator order. */
module LevelIndex {
  import opened Wrappers
  import opened Keys
  import opened Search
  import opened Table

  /** Descriptor of one sorted table file; `smallest` and `largest` bound its keys. */
  datatype FileMetaData = FileMetaData(
    number: nat,
    fileSize: nat,
    smallest: InternalKey,
    largest: InternalKey,
    allowedSeeks: int)

  /** A file's entries in the order its table iterator yields them. */
  type TableCache = FileMetaData -> seq<Entry>

  datatype Level = Level(levelNumber: nat, files: seq<FileMetaData>)

  datatype LevelError = NegativeLevelNumber

  /** A definitive answer: the stored value, or a tombstone. */
  datatype LookupResult = Ok(key: LookupKey, value: seq<int>) | Deleted(key: LookupKey)

  /** Which file a lookup charges for an extra seek, and its level. */
  datatype ReadStats = ReadStats(seekFile: Option<FileMetaData>, seekFileLevel: int)

  /** `ReadStats.Clear()`: no file charged. */
  const ClearedStats: ReadStats := ReadStats(None, -1)

  /** `Get`'s return value (`None` is the source's `null`) and the read
      statistics it leaves behind. */
  datatype GetOutcome = GetOutcome(result: Option<LookupResult>, stats: ReadStats)

  /** The constructor: rejects a negative level number and keeps its own copy
      of the file list (value semantics make every list a copy). */
  function NewLevel(levelNumber: int, files: seq<FileMetaData>): (r: Result<Level, LevelError>)
    ensures r.Failure? <==> levelNumber < 0
    ensures r.Failure? ==> r.error == NegativeLevelNumber
    ensures r.Success? ==> r.value.levelNumber == levelNumber && r.value.files == files
  {
    if levelNumber < 0 then Failure(NegativeLevelNumber)
    else Success(Level(levelNumber, files))
  }

  /** `AddFile`: a raw append, with neither sorting nor validation. */
  function AddFile(level: Level, f: FileMetaData): (r: Level)
    ensures r.levelNumber == level.levelNumber
    ensures |r.files| == |level.files| + 1
    ensures r.files[..|level.files|] == level.files
    ensures r.files[|level.files|] == f
  {
    level.(files := level.files + [f])
  }

  /** The files' largest keys, in list order. */
  function Largests(files: seq<FileMetaData>): (ks: seq<InternalKey>)
    ensures |ks| == |files|
    ensures forall i :: 0 <= i < |files| ==> ks[i] == files[i].largest
  {
    seq(|files|, i requires 0 <= i < |files| => files[i].largest)
  }

  /** The file's user-key range contains `u`, both ends inclusive. */
  predicate ContainsUserKey(f: FileMetaData, u: UserKey) {
    !LexLess(u, f.smallest.userKey) && !LexLess(f.largest.userKey, u)
  }

  /** Level-0 candidate filter: the files whose range contains `u`, in list order. */
  function Level0Candidates(files: seq<FileMetaData>, u: UserKey): (c: seq<FileMetaData>)
    ensures |c| <= |files|
    ensures forall f :: f in c <==> f in files && ContainsUserKey(f, u)
    ensures |c| > 0 ==>
      exists k :: 0 <= k < |files| && c[0] == files[k] && ContainsUserKey(files[k], u)
        && forall j :: 0 <= j < k ==> !ContainsUserKey(files[j], u)
  {
    if |files| == 0 then []
    else
      var rest := Level0Candidates(files[1..], u);
      assert forall f :: f in files <==> f == files[0] || f in files[1..];
      if ContainsUserKey(files[0], u) then [files[0]] + rest
      else
        assert |rest| > 0 ==>
          exists k :: 0 <= k < |files| && rest[0] == files[k] && ContainsUserKey(files[k], u)
            && forall j :: 0 <= j < k ==> !ContainsUserKey(files[j], u)
        by {
          if |rest| > 0 {
            var k :| 0 <= k < |files[1..]| && rest[0] == files[1..][k] && ContainsUserKey(files[1..][k], u)
              && forall j :: 0 <= j < k ==> !ContainsUserKey(files[1..][j], u);
            assert forall j :: 1 <= j < k + 1 ==> files[j] == files[1..][j - 1];
            assert rest[0] == files[k + 1];
          }
        }
        rest
  }

  /** The filter keeps list order and multiplicity: filtering a concatenation
      concatenates the filtered parts. */
  lemma {:induction false} Level0CandidatesConcat(a: seq<FileMetaData>, b: seq<FileMetaData>, u: UserKey)
    ensures Level0Candidates(a + b, u) == Level0Candidates(a, u) + Level0Candidates(b, u)
  {
    if |a| == 0 {
      assert a + b == b;
    } else {
      assert (a + b)[0] == a[0];
      assert (a + b)[1..] == a[1..] + b;
      Level0CandidatesConcat(a[1..], b, u);
    }
  }

  /** `CeilingEntryIndex`: the binary search's hit, or its insertion point. */
  function CeilingEntryIndex(list: seq<InternalKey>, key: InternalKey): (i: nat)
    ensures i <= |list|
    ensures SortedKeys(list) ==>
      && (forall j :: 0 <= j < i ==> IkLeq(list[j], key))
      && (i < |list| ==> IkLeq(key, list[i]))
    ensures StrictlySortedKeys(list) ==> i == LowerBound(list, key)
  {
    var p := BinarySearch(list, key);
    var i := if p < 0 then -(p + 1) else p;
    assert StrictlySortedKeys(list) ==> i == LowerBound(list, key) by {
      if StrictlySortedKeys(list) {
        IkLessIrreflexive(key);
        if p < 0 {
          forall j | i <= j < |list| ensures !IkLess(list[j], key) {
            IkAsymmetric(key, list[j]);
          }
        }
        LowerBoundUnique(list, key, i);
      }
    }
    i
  }

  /** Lines 73-106 of `Get`: `None` for an early `return null` (taken before
      the read statistics are cleared), otherwise the files to probe in order. */
  function Candidates(level: Level, key: LookupKey): (c: Option<seq<FileMetaData>>)
    ensures |level.files| == 0 ==> c.None?
    ensures level.levelNumber == 0 && |level.files| > 0 ==>
      c == Some(Level0Candidates(level.files, key.userKey))
    ensures level.levelNumber > 0 && c.Some? ==>
      |c.value| == 1 && c.value[0] in level.files && !LexLess(key.userKey, c.value[0].smallest.userKey)
    ensures level.levelNumber > 0 && SortedKeys(Largests(level.files)) && c.Some? ==>
      ContainsUserKey(c.value[0], key.userKey)
    ensures level.levelNumber > 0 && StrictlySortedKeys(Largests(level.files)) ==>
      var i := LowerBound(Largests(level.files), SeekKey(key));
      c == if i < |level.files| && !LexLess(key.userKey, level.files[i].smallest.userKey)
           then Some([level.files[i]]) else None
  {
    if |level.files| == 0 then None
    else if level.levelNumber == 0 then Some(Level0Candidates(level.files, key.userKey))
    else
      var index := CeilingEntryIndex(Largests(level.files), SeekKey(key));
      if index >= |level.files| then None
      else
        var f := level.files[index];
        if LexLess(key.userKey, f.smallest.userKey) then None
        else
          assert SortedKeys(Largests(level.files)) ==> !LexLess(f.largest.userKey, key.userKey) by {
            if SortedKeys(Largests(level.files)) {
              IkLeqUserKey(SeekKey(key), f.largest);
              if LexLess(f.largest.userKey, key.userKey) {
                LexAsymmetric(f.largest.userKey, key.userKey);
              }
            }
          }
          Some([f])
  }

  /** Probing one file: seek to the lookup's key and inspect the first entry. */
  function Verdict(f: FileMetaData, key: LookupKey, table: TableCache): (r: Option<LookupResult>)
    ensures r.Some? ==> r.value.key == key
    ensures r.Some? ==> exists e :: e in table(f) && Visible(e, key)
  {
    var r := match Seek(table(f), SeekKey(key))
      case None => None
      case Some(e) =>
        if e.key.userKey == key.userKey then
          if e.key.kind == Deletion then Some(Deleted(key)) else Some(Ok(key, e.value))
        else None;
    assert r.Some? ==> exists e :: e in table(f) && Visible(e, key) by {
      if r.Some? {
        var e := Seek(table(f), SeekKey(key)).value;
        LexLessIrreflexive(key.userKey);
        assert e in table(f) && Visible(e, key);
      }
    }
    r
  }

  /** On a sorted table a probe is definitive exactly when some entry is
      visible, and it answers according to the newest visible entry: a
      tombstone gives `Deleted`, a value gives `Ok` with that value. */
  lemma VerdictIsNewestVisible(f: FileMetaData, key: LookupKey, table: TableCache)
    requires StrictlySorted(table(f))
    ensures Verdict(f, key, table).Some? <==> exists e :: e in table(f) && Visible(e, key)
    ensures Verdict(f, key, table).Some? ==>
      exists e :: (NewestVisible(table(f), e, key)
        && Verdict(f, key, table) == if e.key.kind == Deletion then Some(Deleted(key)) else Some(Ok(key, e.value)))
  {
    SeekFindsNewestVisible(table(f), key);
    if Verdict(f, key, table).Some? {
      var e := Seek(table(f), SeekKey(key)).value;
      assert NewestVisible(table(f), e, key);
    }
  }

  /** Index of the first candidate at or after `i` whose probe is definitive,
      or `|cands|` when none is. */
  function FirstHitFrom(cands: seq<FileMetaData>, i: nat, key: LookupKey, table: TableCache): (h: nat)
    requires i <= |cands|
    ensures i <= h <= |cands|
    ensures forall j :: i <= j < h ==> Verdict(cands[j], key, table).None?
    ensures h < |cands| ==> Verdict(cands[h], key, table).Some?
    decreases |cands| - i
  {
    if i == |cands| then i
    else if Verdict(cands[i], key, table).Some? then i
    else FirstHitFrom(cands, i + 1, key, table)
  }

  /** How many candidates a lookup opens when the first definitive probe is at `h`. */
  function OpenedFiles(cands: seq<FileMetaData>, h: nat): nat {
    if h < |cands| then h + 1 else |cands|
  }

  /** The statistics a lookup leaves: the first opened file is charged exactly
      when at least two files were opened. */
  function ChargedStats(cands: seq<FileMetaData>, levelNumber: nat, openedCount: nat): ReadStats
    requires openedCount <= |cands|
  {
    if openedCount >= 2 then ReadStats(Some(cands[0]), levelNumber) else ClearedStats
  }

  /** The `foreach` of `Get` (lines 108-153) from iteration `i` on, with the
      loop's state `lastFileRead`, `lastFileReadLevel` and the statistics. */
  function ProbeLoop(cands: seq<FileMetaData>, i: nat, lastFileRead: Option<FileMetaData>,
                     lastFileReadLevel: int, stats: ReadStats, levelNumber: nat,
                     key: LookupKey, table: TableCache): (r: GetOutcome)
    requires i <= |cands|
    requires lastFileRead == if i == 0 then None else Some(cands[i - 1])
    requires i >= 1 ==> lastFileReadLevel == levelNumber
    requires stats == if i >= 2 then ReadStats(Some(cands[0]), levelNumber) else ClearedStats
    ensures var h := FirstHitFrom(cands, i, key, table);
      && r.result == (if h < |cands| then Verdict(cands[h], key, table) else None)
      && r.stats == ChargedStats(cands, levelNumber, OpenedFiles(cands, h))
    decreases |cands| - i
  {
    if i == |cands| then GetOutcome(None, stats)
    else
      var stats' :=
        if lastFileRead.Some? && stats.seekFile.None?
        then ReadStats(lastFileRead, lastFileReadLevel)
        else stats;
      var f := cands[i];
      var verdict := Verdict(f, key, table);
      if verdict.Some? then GetOutcome(verdict, stats')
      else ProbeLoop(cands, i + 1, Some(f), levelNumber, stats', levelNumber, key, table)
  }

  /** Point lookup: the first definitive probe among the candidates, and the
      seek charge. An early exit leaves `stats` exactly as it was. */
  function Get(level: Level, key: LookupKey, stats: ReadStats, table: TableCache): (r: GetOutcome)
    ensures |level.files| == 0 ==> r == GetOutcome(None, stats)
    ensures Candidates(level, key).None? ==> r == GetOutcome(None, stats)
    ensures Candidates(level, key).Some? ==>
      var cands := Candidates(level, key).value;
      var h := FirstHitFrom(cands, 0, key, table);
      && r.result == (if h < |cands| then Verdict(cands[h], key, table) else None)
      && (r.stats.seekFile.Some? <==> OpenedFiles(cands, h) >= 2)
      && (r.stats.seekFile.Some? ==>
            r.stats.seekFile.value == cands[0] && r.stats.seekFileLevel == level.levelNumber)
      && (r.stats.seekFile.None? ==> r.stats == ClearedStats)
    ensures r.result.Some? ==> r.result.value.key == key
    ensures level.levelNumber > 0 ==> r.stats == stats || r.stats == ClearedStats
  {
    match Candidates(level, key)
    case None => GetOutcome(None, stats)
    case Some(cands) => ProbeLoop(cands, 0, None, -1, ClearedStats, level.levelNumber, key, table)
  }

  /** A file descriptor whose bounds are ordered and carry admissible sequence numbers. */
  predicate FileWellFormed(f: FileMetaData) {
    && IkLeq(f.smallest, f.largest)
    && f.smallest.sequence <= MaxSequenceNumber
    && f.largest.sequence <= MaxSequenceNumber
  }

  /** The shape callers keep above level 0: well-formed files, sorted and
      pairwise disjoint by user key. `Level` assumes it and never checks it. */
  predicate SortedDisjoint(files: seq<FileMetaData>) {
    && (forall i :: 0 <= i < |files| ==> FileWellFormed(files[i]))
    && (forall i, j :: 0 <= i < j < |files| ==> LexLess(files[i].largest.userKey, files[j].smallest.userKey))
  }

  /** The file's user-key range meets the inclusive range `[lo, hi]`. */
  predicate Overlaps(f: FileMetaData, lo: UserKey, hi: UserKey) {
    !LexLess(f.largest.userKey, lo) && !LexLess(hi, f.smallest.userKey)
  }

  predicate AnyOverlap(files: seq<FileMetaData>, lo: UserKey, hi: UserKey) {
    exists i :: 0 <= i < |files| && Overlaps(files[i], lo, hi)
  }

  predicate AllBelow(files: seq<FileMetaData>, lo: UserKey) {
    forall i :: 0 <= i < |files| ==> LexLess(files[i].largest.userKey, lo)
  }

  /** What `SomeFileOverlapsRange` answers on a sorted, disjoint level: a true
      overlap, or else (every file lying below `lo`) whether `hi` reaches the
      last file's smallest user key, because `FindFile` then returns the last
      index instead of the file count. */
  predicate OverlapAsWritten(files: seq<FileMetaData>, lo: UserKey, hi: UserKey) {
    || AnyOverlap(files, lo, hi)
    || (|files| > 0 && AllBelow(files, lo) && !LexLess(hi, files[|files| - 1].smallest.userKey))
  }

  lemma SortedDisjointLargests(files: seq<FileMetaData>)
    requires SortedDisjoint(files)
    ensures StrictlySortedKeys(Largests(files))
  {
    var ks := Largests(files);
    forall i, j | 0 <= i < j < |files|
      ensures IkLess(ks[i], ks[j])
    {
      IkLeqUserKey(files[j].smallest, files[j].largest);
      if files[j].smallest.userKey != files[j].largest.userKey {
        LexLessTransitive(files[i].largest.userKey, files[j].smallest.userKey, files[j].largest.userKey);
      }
    }
  }

  /** Against the probe `(lo, MaxSequenceNumber, Value)` a well-formed file's
      largest key is below exactly when its user key is below `lo`. */
  lemma ProbeComparesUserKeys(files: seq<FileMetaData>, lo: UserKey)
    requires SortedDisjoint(files)
    ensures forall j :: 0 <= j < |files| ==>
      (IkLess(files[j].largest, InternalKey(lo, MaxSequenceNumber, Value)) <==> LexLess(files[j].largest.userKey, lo))
  {
    forall j | 0 <= j < |files|
      ensures IkLess(files[j].largest, InternalKey(lo, MaxSequenceNumber, Value)) <==> LexLess(files[j].largest.userKey, lo)
    {
      LeastKeyForUserKey(files[j].largest, lo);
    }
  }

  /** On a sorted, disjoint level, the first file whose largest user key
      reaches `lo` decides overlap: some file meets `[lo, hi]` exactly when
      that file starts at or below `hi`. */
  lemma OverlapAtLowerBound(files: seq<FileMetaData>, lo: UserKey, hi: UserKey, r: nat)
    requires SortedDisjoint(files)
    requires r < |files|
    requires forall j :: 0 <= j < r ==> LexLess(files[j].largest.userKey, lo)
    requires !LexLess(files[r].largest.userKey, lo)
    ensures AnyOverlap(files, lo, hi) <==> !LexLess(hi, files[r].smallest.userKey)
  {
    if AnyOverlap(files, lo, hi) {
      var k :| 0 <= k < |files| && Overlaps(files[k], lo, hi);
      assert r <= k;
      if r < k {
        // files[r].smallest <= files[r].largest < files[k].smallest <= hi
        IkLeqUserKey(files[r].smallest, files[r].largest);
        assert LexLess(files[r].largest.userKey, files[k].smallest.userKey);
        assert LexLeq(files[r].smallest.userKey, files[k].smallest.userKey) by {
          if files[r].smallest.userKey != files[r].largest.userKey {
            LexLessTransitive(files[r].smallest.userKey, files[r].largest.userKey, files[k].smallest.userKey);
          }
        }
        LexTrichotomy(hi, files[k].smallest.userKey);
        LexTrichotomy(hi, files[r].smallest.userKey);
        if LexLess(hi, files[r].smallest.userKey) {
          LexLeqTransitive(files[k].smallest.userKey, hi, files[r].smallest.userKey);
          LexAntisymmetric(files[r].smallest.userKey, files[k].smallest.userKey);
        }
      }
    }
    if !LexLess(hi, files[r].smallest.userKey) {
      assert Overlaps(files[r], lo, hi);
    }
  }

  /** `FindFile`: binary search over the files' largest keys. It starts from
      `right = |files| - 1`, so when every file lies below the target it
      returns the last index rather than the file count. */
  method FindFile(level: Level, target: InternalKey) returns (r: nat)
    ensures |level.files| == 0 ==> r == 0
    ensures |level.files| > 0 ==> r < |level.files|
    ensures r + 1 < |level.files| ==> !IkLess(level.files[r].largest, target)
    ensures |level.files| > 0 && (forall j :: 0 <= j < |level.files| ==> IkLess(level.files[j].largest, target)) ==>
      r == |level.files| - 1
    ensures SortedKeys(Largests(level.files)) ==>
      forall j :: 0 <= j < r ==> IkLess(level.files[j].largest, target)
    ensures SortedKeys(Largests(level.files)) && |level.files| > 0 ==>
      var lb := LowerBound(Largests(level.files), target);
      r == if lb < |level.files| then lb else |level.files| - 1
  {
    var files := level.files;
    if |files| == 0 {
      return 0;
    }
    var left := 0;
    var right := |files| - 1;
    while left < right
      invariant 0 <= left <= right < |files|
      invariant right == |files| - 1 || !IkLess(files[right].largest, target)
      invariant SortedKeys(Largests(files)) ==>
        forall j :: 0 <= j < left ==> IkLess(files[j].largest, target)
      decreases right - left
    {
      var mid := (left + right) / 2;
      if Compare(files[mid].largest, target) < 0 {
        if SortedKeys(Largests(files)) {
          forall j | 0 <= j <= mid
            ensures IkLess(files[j].largest, target)
          {
            if j < mid {
              assert IkLeq(Largests(files)[j], Largests(files)[mid]);
              IkLeqLessTransitive(files[j].largest, files[mid].largest, target);
            }
          }
        }
        left := mid + 1;
      } else {
        right := mid;
      }
    }
    r := right;
    if SortedKeys(Largests(files)) {
      var lb := LowerBound(Largests(files), target);
      if lb < |files| {
        assert r <= lb;
      }
    }
  }

  /** `SomeFileOverlapsRange`: probe with `(lo, MaxSequenceNumber, Value)`,
      then compare `hi` with the smallest user key of the file found. */
  method SomeFileOverlapsRange(level: Level, smallestUserKey: UserKey, largestUserKey: UserKey) returns (b: bool)
    ensures |level.files| == 0 ==> !b
    ensures b ==> exists i :: 0 <= i < |level.files| && !LexLess(largestUserKey, level.files[i].smallest.userKey)
    ensures SortedDisjoint(level.files) ==>
      (b <==> OverlapAsWritten(level.files, smallestUserKey, largestUserKey))
  {
    var probe := InternalKey(smallestUserKey, MaxSequenceNumber, Value);
    var index := FindFile(level, probe);
    b := index < |level.files| && !LexLess(largestUserKey, level.files[index].smallest.userKey);
    if SortedDisjoint(level.files) {
      var files := level.files;
      SortedDisjointLargests(files);
      ProbeComparesUserKeys(files, smallestUserKey);
      var lb := LowerBound(Largests(files), probe);
      if lb < |files| {
        OverlapAtLowerBound(files, smallestUserKey, largestUserKey, lb);
        assert !AllBelow(files, smallestUserKey) by {
          assert !LexLess(files[lb].largest.userKey, smallestUserKey);
        }
      } else {
        assert AllBelow(files, smallestUserKey);
        assert !AnyOverlap(files, smallestUserKey, largestUserKey);
      }
    }
  }
}
