/** Properties of the level index that relate several of its operations:
    what a point lookup returns at level 0 and above, and what a raw append
    does to the ordering callers maintain. */
module LevelProperties {
  import opened Wrappers
  import opened Keys
  import opened Search
  import opened Table
  import opened LevelIndex

  /** Every entry a file's table holds lies within the file's key bounds. */
  predicate BoundsConsistent(files: seq<FileMetaData>, table: TableCache) {
    forall i, e :: 0 <= i < |files| && e in table(files[i]) ==>
      IkLeq(files[i].smallest, e.key) && IkLeq(e.key, files[i].largest)
  }

  predicate TablesSorted(files: seq<FileMetaData>, table: TableCache) {
    forall i :: 0 <= i < |files| ==> StrictlySorted(table(files[i]))
  }

  /** Reference scan: probe every file in list order and keep the first
      definitive answer. */
  function FirstVerdict(files: seq<FileMetaData>, key: LookupKey, table: TableCache): Option<LookupResult>
  {
    if |files| == 0 then None
    else if Verdict(files[0], key, table).Some? then Verdict(files[0], key, table)
    else FirstVerdict(files[1..], key, table)
  }

  /** The probe loop's answer from index `i` is the reference scan of the rest. */
  lemma {:induction false} FirstHitIsFirstVerdict(cands: seq<FileMetaData>, i: nat, key: LookupKey, table: TableCache)
    requires i <= |cands|
    ensures var h := FirstHitFrom(cands, i, key, table);
      (if h < |cands| then Verdict(cands[h], key, table) else None) == FirstVerdict(cands[i..], key, table)
    decreases |cands| - i
  {
    if i < |cands| && Verdict(cands[i], key, table).None? {
      FirstHitIsFirstVerdict(cands, i + 1, key, table);
      assert cands[i..][1..] == cands[i + 1..];
    }
  }

  /** A file whose probe is definitive holds an entry of the key's user key,
      so its range contains that key. */
  lemma DefinitiveFileContainsKey(files: seq<FileMetaData>, i: nat, key: LookupKey, table: TableCache)
    requires BoundsConsistent(files, table)
    requires i < |files|
    requires Verdict(files[i], key, table).Some?
    ensures ContainsUserKey(files[i], key.userKey)
  {
    var e :| e in table(files[i]) && Visible(e, key);
    IkLeqUserKey(files[i].smallest, e.key);
    IkLeqUserKey(e.key, files[i].largest);
    if LexLess(key.userKey, files[i].smallest.userKey) {
      LexAsymmetric(key.userKey, files[i].smallest.userKey);
    }
    if LexLess(files[i].largest.userKey, key.userKey) {
      LexAsymmetric(files[i].largest.userKey, key.userKey);
    }
  }

  /** The level-0 range filter only drops files whose probe cannot be definitive. */
  lemma {:induction false} Level0FilterKeepsFirstVerdict(files: seq<FileMetaData>, key: LookupKey, table: TableCache)
    requires BoundsConsistent(files, table)
    ensures FirstVerdict(Level0Candidates(files, key.userKey), key, table) == FirstVerdict(files, key, table)
  {
    if |files| > 0 {
      assert BoundsConsistent(files[1..], table) by {
        forall i, e | 0 <= i < |files[1..]| && e in table(files[1..][i])
          ensures IkLeq(files[1..][i].smallest, e.key) && IkLeq(e.key, files[1..][i].largest)
        {
          assert files[1..][i] == files[i + 1];
        }
      }
      Level0FilterKeepsFirstVerdict(files[1..], key, table);
      var rest := Level0Candidates(files[1..], key.userKey);
      if ContainsUserKey(files[0], key.userKey) {
        assert Level0Candidates(files, key.userKey) == [files[0]] + rest;
        assert ([files[0]] + rest)[1..] == rest;
      } else if Verdict(files[0], key, table).Some? {
        DefinitiveFileContainsKey(files, 0, key, table);
      }
    }
  }

  /** Level 0 answers like a scan of all its files in list order: the range
      filter never changes the result, and an earlier file in the list shadows
      every later one. */
  lemma {:induction false} Level0GetIsListOrderScan(level: Level, key: LookupKey, stats: ReadStats, table: TableCache)
    requires level.levelNumber == 0
    requires BoundsConsistent(level.files, table)
    ensures var h := FirstHitFrom(level.files, 0, key, table);
      Get(level, key, stats, table).result == if h < |level.files| then Verdict(level.files[h], key, table) else None
  {
    FirstHitIsFirstVerdict(level.files, 0, key, table);
    assert level.files[0..] == level.files;
    if |level.files| > 0 {
      FirstHitIsFirstVerdict(Level0Candidates(level.files, key.userKey), 0, key, table);
      Level0FilterKeepsFirstVerdict(level.files, key, table);
      assert Level0Candidates(level.files, key.userKey)[0..] == Level0Candidates(level.files, key.userKey);
    }
  }

  /** At level 0 the file charged for an extra seek is the first file in
      list order whose user-key range contains the key. */
  lemma Level0ChargedFileIsFirstContaining(level: Level, key: LookupKey, stats: ReadStats, table: TableCache)
    requires level.levelNumber == 0
    ensures var r := Get(level, key, stats, table);
      r.stats.seekFile.Some? && |level.files| > 0 ==>
        exists k :: 0 <= k < |level.files| && r.stats.seekFile.value == level.files[k]
          && ContainsUserKey(level.files[k], key.userKey)
          && forall j :: 0 <= j < k ==> !ContainsUserKey(level.files[j], key.userKey)
  {
  }

  /** If a lookup may see an entry of `b`, it may not see it below `b`'s upper bound. */
  lemma VisibleNotBelow(e: Entry, bound: InternalKey, key: LookupKey)
    requires Visible(e, key)
    requires IkLeq(e.key, bound)
    ensures !IkLess(bound, SeekKey(key))
  {
    LexLessIrreflexive(key.userKey);
    if IkLess(bound, SeekKey(key)) {
      IkLeqLessTransitive(e.key, bound, SeekKey(key));
    }
  }

  /** Above level 0, on a sorted, disjoint level whose tables are sorted and
      within their files' bounds, the lookup finds the one file that can hold
      a visible entry and answers with that file's newest visible entry; with
      no visible entry anywhere it answers `None`. */
  lemma {:induction false} UpperLevelGetFindsVisibleVersion(level: Level, key: LookupKey, stats: ReadStats, table: TableCache)
    requires level.levelNumber > 0
    requires SortedDisjoint(level.files)
    requires BoundsConsistent(level.files, table)
    requires TablesSorted(level.files, table)
    ensures forall i, e :: 0 <= i < |level.files| && e in table(level.files[i]) && Visible(e, key) ==>
      Get(level, key, stats, table).result == Verdict(level.files[i], key, table)
      && Get(level, key, stats, table).result.Some?
    ensures (forall i, e :: 0 <= i < |level.files| && e in table(level.files[i]) ==> !Visible(e, key)) ==>
      Get(level, key, stats, table).result.None?
  {
    var files := level.files;
    var sk := SeekKey(key);
    SortedDisjointLargests(files);
    var lb := LowerBound(Largests(files), sk);
    forall i, e | 0 <= i < |files| && e in table(files[i]) && Visible(e, key)
      ensures Get(level, key, stats, table).result == Verdict(files[i], key, table)
      ensures Get(level, key, stats, table).result.Some?
    {
      VisibleNotBelow(e, files[i].largest, key);
      assert lb <= i;
      // files[lb].largest reaches the key, files[i].smallest does not exceed it
      IkTrichotomy(files[lb].largest, sk);
      IkLeqUserKey(sk, files[lb].largest);
      IkLeqUserKey(files[i].smallest, e.key);
      if lb < i {
        assert LexLess(files[lb].largest.userKey, files[i].smallest.userKey);
        LexLeqTransitive(files[i].smallest.userKey, key.userKey, files[lb].largest.userKey);
        LexAsymmetric(files[lb].largest.userKey, files[i].smallest.userKey);
      }
      assert lb == i;
      if LexLess(key.userKey, files[i].smallest.userKey) {
        LexAsymmetric(key.userKey, files[i].smallest.userKey);
      }
      assert Candidates(level, key) == Some([files[i]]);
      VerdictIsNewestVisible(files[i], key, table);
      assert Verdict(files[i], key, table).Some?;
    }
  }

  /** `AddFile` keeps a sorted, disjoint level sorted and disjoint exactly
      when the new file lies wholly after the current last file; it checks
      nothing itself, so keeping the order is the caller's duty. */
  lemma AddFileKeepsOrderIff(level: Level, f: FileMetaData)
    requires SortedDisjoint(level.files)
    requires FileWellFormed(f)
    ensures SortedDisjoint(AddFile(level, f).files) <==>
      (|level.files| == 0 || LexLess(level.files[|level.files| - 1].largest.userKey, f.smallest.userKey))
  {
    var files := level.files;
    var n := |files|;
    var files' := AddFile(level, f).files;
    assert files' == files + [f];
    if n > 0 && LexLess(files[n - 1].largest.userKey, f.smallest.userKey) {
      forall i, j | 0 <= i < j < |files'|
        ensures LexLess(files'[i].largest.userKey, files'[j].smallest.userKey)
      {
        if j == n && i < n - 1 {
          IkLeqUserKey(files[n - 1].smallest, files[n - 1].largest);
          assert LexLess(files[i].largest.userKey, files[n - 1].smallest.userKey);
          LexLessLeqTransitive(files[i].largest.userKey, files[n - 1].smallest.userKey, files[n - 1].largest.userKey);
          LexLessTransitive(files[i].largest.userKey, files[n - 1].largest.userKey, f.smallest.userKey);
        }
      }
    }
    if SortedDisjoint(files') && n > 0 {
      assert files'[n - 1] == files[n - 1] && files'[n] == f;
    }
  }
}
