# Level file index of LevelDB.Standard, in Dafny

This project models `Level`, the per-level file index of the LevelDB.Standard
LSM key-value engine (`LevelDB/Impl/Level.cs`). A level holds an ordered list
of `FileMetaData` descriptors. Each descriptor names a sorted table file and
bounds its keys by `Smallest` and `Largest` internal keys. The model covers
four things:

- the point lookup `Get`. It picks candidate files, probes them in order, and
  answers `Ok`, `Deleted` or nothing (`null`). It also records which file to
  charge for an extra seek in `ReadStats`;
- the hand-written binary search `FindFile` and the range test
  `SomeFileOverlapsRange` built on it;
- `CeilingEntryIndex`, with the .NET `List<T>.BinarySearch` it delegates to;
- the constructor and the raw append `AddFile`.

Modules, leaf first:

- `Wrappers`: `Option` (the source's `null`) and `Result` (argument exceptions).
- `Keys`: user keys as `seq<int>` under lexicographic order. Internal keys
  `(userKey, sequence, kind)` are ordered by ascending user key, then by
  descending sequence number, then by descending kind code (`Value` = 1 before
  `Deletion` = 0). This module also holds `LookupKey` and its seek key
  `(userKey, sequence, Value)`.
- `Search`: the .NET binary search, and `LowerBound`, a linear reference
  definition of "the first element not below the key".
- `Table`: table entries and `Seek`. `Seek` models an iterator that seeks and
  then takes `HasNext`/`Next`. It also proves that seeking to the lookup's key
  on a sorted table finds the newest entry visible at the snapshot.
- `LevelIndex`: the operations of `Level.cs`.
- `LevelProperties`: the lookup's end-to-end behaviour.
  - At level 0 it equals a scan of all files in list order.
  - Above level 0, on a sorted, disjoint level, it returns the newest visible
    version.
  - It also gives the exact condition under which `AddFile` preserves the order
    that callers maintain.
- `OverlapFinding`: the `FindFile` upper-bound finding below.

The table cache is a parameter of `Get`: a pure function from a file to its
entries in iterator order. Every operation is a pure function or a method
without side effects. `Get` returns the `ReadStats` it leaves behind rather than
mutating a caller's object. `AddFile` returns the extended level. Because `Get`
is a pure function, repeated lookups with the same key on the same level give
identical results.

Level-0 candidates are probed in the list order of `Files` (`Files.Where`),
which is what the code does. LevelDB's design says newest-first order, but
`Level.cs` does not sort by recency, so the model follows the code. Newest-first
holds only if callers list level-0 files newest first.

`FileMetaData.GetLargestUserKey` (`Level.cs:88`) is compared with the internal
comparator against `key.InternalKey`, so the model reads it as the file's
largest internal key. `ReadStats.Clear()` is modelled as "no file, level -1".
`SequenceNumber.MaxSequenceNumber` is modelled as 2^56 - 1. The tie-break on record
kind (`Value` before `Deletion` at equal user key and sequence number) is
likewise an assumption, taken from LevelDB's convention. Because of it,
`Compare` is non-zero for two such keys. A comparator on user key and sequence
number alone would return zero there. No lookup or overlap answer depends on it
while sequence numbers are unique. The classes
`FileMetaData`, `ReadStats`, `SequenceNumber`, `InternalKeyComparator` and
`TableCache` are not part of this model. Their shapes above follow how
`Level.cs` uses them.

## Model

| member | source | states |
|---|---|---|
| `LevelIndex.NewLevel` | LevelDB/Impl/Level.cs:35-48 | Fails exactly when the level number is negative. Otherwise the level keeps that number and its own copy of the given file list. |
| `LevelIndex.AddFile` | LevelDB/Impl/Level.cs:208-212 | The new file list is the old list with the file appended at the end. The level number is unchanged. |
| `LevelProperties.AddFileKeepsOrderIff` | LevelDB/Impl/Level.cs:208-212 | On a sorted, disjoint level, appending keeps the level sorted and disjoint if and only if the new file lies wholly after the last file. The append itself validates nothing. |
| `Keys.Compare` | LevelDB/Impl/Level.cs:192 | The three-way comparator is negative, zero or positive exactly when the internal-key order puts the first key below, equal to or above the second. |
| `Search.BinarySearch` | LevelDB/Impl/Level.cs:158 | A non-negative result indexes an element equal to the key. A negative result encodes an insertion point within `[0, Count]`. On a sorted list, everything before that insertion point is below the key and everything from it on is above. |
| `LevelIndex.CeilingEntryIndex` | LevelDB/Impl/Level.cs:156-164 | The result lies in `[0, Count]`. On a sorted list, every element before it is at most the key and the element at it, if any, is at least the key. On a strictly sorted list it is the leftmost element not below the key, which is the linear `LowerBound`. |
| `LevelIndex.Level0Candidates` | LevelDB/Impl/Level.cs:81-83 | A file is a candidate if and only if it is in the list and its user-key range contains the key, inclusive at both ends. The first candidate is the first file in list order whose range contains the key. |
| `LevelIndex.Level0CandidatesConcat` | LevelDB/Impl/Level.cs:81-83 | The filter keeps list order and repeated files: filtering two lists joined end to end gives the two filtered lists joined end to end. |
| `LevelIndex.Candidates` | LevelDB/Impl/Level.cs:73-106 | An empty level gives no candidate list, so the lookup returns early. At level 0 the candidates are the filtered files in list order. Above level 0 there is at most one candidate, and the key is not below its smallest user key. On a sorted level that candidate's range contains the key. On a strictly sorted level it is exactly the `LowerBound` file, or there is none. |
| `Table.Seek` | LevelDB/Impl/Level.cs:124-132 | Returns nothing exactly when every entry is below the seek key. Otherwise it returns the first entry that is not below the seek key. |
| `Table.SeekFindsNewestVisible` | LevelDB/Impl/Level.cs:127-139 | On a sorted table, the sought entry has the lookup's user key exactly when some entry is visible at the snapshot. That entry is then visible, and no visible entry has a higher sequence number. |
| `LevelIndex.Verdict` | LevelDB/Impl/Level.cs:123-150 | A definitive answer carries the lookup key and comes from an entry of the probed file that is visible at the snapshot (same user key, sequence number at most the snapshot). |
| `LevelIndex.VerdictIsNewestVisible` | LevelDB/Impl/Level.cs:127-148 | On a sorted table the probe is definitive exactly when a visible entry exists. It answers `Deleted` when the newest visible entry is a tombstone and `Ok` with its value when it is a value, so a tombstone suppresses older values in the same file. |
| `LevelIndex.ProbeLoop` | LevelDB/Impl/Level.cs:108-153 | The loop answers with the first candidate whose probe is definitive, or nothing. It leaves the first candidate charged, at this level, exactly when at least two files were opened. Otherwise the stats stay cleared. |
| `LevelIndex.Get` | LevelDB/Impl/Level.cs:71-154 | On an empty level, or on an early exit above level 0, the result is none and the stats are untouched. Otherwise the result is the first definitive candidate's answer. `SeekFile` is set if and only if at least two files were opened. When set, it is the first candidate and `SeekFileLevel` is the level number. Above level 0 the stats end either untouched or cleared. |
| `LevelProperties.Level0FilterKeepsFirstVerdict` | LevelDB/Impl/Level.cs:81-83 | When tables stay within their files' bounds, the level-0 range filter never changes which probe answers first. |
| `LevelProperties.Level0GetIsListOrderScan` | LevelDB/Impl/Level.cs:79-153 | At level 0 the lookup answers like probing every file in list order and taking the first definitive answer, so an earlier file shadows every later one. |
| `LevelProperties.Level0ChargedFileIsFirstContaining` | LevelDB/Impl/Level.cs:79-121 | At level 0, on a non-empty level, a charged seek file is the first file in list order whose user-key range contains the key. |
| `LevelProperties.UpperLevelGetFindsVisibleVersion` | LevelDB/Impl/Level.cs:85-153 | Above level 0, on a sorted, disjoint level with sorted, in-bounds tables: if any file holds a visible entry, the lookup answers with that file's verdict, which is definitive. If no file does, the lookup answers none. |
| `LevelIndex.FindFile` | LevelDB/Impl/Level.cs:176-206 | Returns 0 on an empty list and otherwise an index in `[0, Count-1]`. Any result before the last index is not below the target. If every file is below the target, the result is `Count-1`. On sorted files, everything before the result is below the target, and the result is the leftmost file not below the target, or `Count-1` if there is none. |
| `LevelIndex.OverlapAtLowerBound` | LevelDB/Impl/Level.cs:170-173 | On a sorted, disjoint level, the first file whose largest user key reaches `lo` decides overlap. Some file meets `[lo, hi]` if and only if that file starts at or below `hi`. |
| `LevelIndex.SomeFileOverlapsRange` | LevelDB/Impl/Level.cs:166-174 | An empty level gives false. A true answer means some file starts at or below `hi`. On a sorted, disjoint level, the answer is true if and only if a file meets `[lo, hi]` (bounds inclusive), or every file lies below `lo` and `hi` reaches the last file's smallest key. |
| `OverlapFinding.FindFileIntended` | LevelDB/Impl/Level.cs:183-205 | With the upper bound starting at `Count`, on sorted files the result is exactly `LowerBound`, which is `Count` when every file is below the target. |
| `OverlapFinding.SomeFileOverlapsRangeIntended` | LevelDB/Impl/Level.cs:166-174 | On a sorted, disjoint level, the corrected test is true if and only if some file meets `[lo, hi]`. |
| `OverlapFinding.AsWrittenFalsePositive` | LevelDB/Impl/Level.cs:185 | A sorted, disjoint level with one file `[10, 20]` and the query `[30, 40]` has no overlap, yet satisfies the as-written characterization. |
| `OverlapFinding.FalsePositiveWitness` | LevelDB/Impl/Level.cs:166-206 | On that level the as-written test answers true and the corrected test answers false. |

## Left out

- `GetLevelIterator`, `GetEnumerator`, `CreateLevelConcatIterator` and `LevelIterator`: these build a concatenating iterator over the level. The concatenating iterator class is not part of this model.
- `ToString`: it only formats text.
- `TableCache`, the table iterators and the block format: these do file I/O. A table is modelled as a function from a file to its entries.
- The null checks of the constructor (`files`, `tableCache`, comparator): Dafny values cannot be null. The second negative-level check (line 46) repeats the first one and is modelled once.
- `Preconditions.CheckState` on a null entry key (lines 134-135): modelled entries always carry a key.
- Record kinds other than `Deletion` and `Value`: the model's kind type has only these two. The code's fall-through to the next candidate for an unknown kind therefore cannot arise.
- The user comparator is modelled as lexicographic order on integer sequences. Byte signedness and custom user comparators are not modelled.
- In-place mutation of `Files` by `AddFile`, publication to concurrent readers, and decrements of `allowedSeeks`: the model is sequential and value-based. `allowedSeeks` is carried but never changed, as in `Level.cs`.
- `LevelDB/Util/WeakKeyComparer.cs`: its meaning depends on garbage-collector timing. `LevelDB/Impl/DBFactory.cs`: directory deletion and opening. `LevelDB/Impl/ILogWriter.cs`: a log-writer interface. None of these is part of this model.
- `LevelIndex.CeilingEntryIndex`: on sorted lists with duplicates equal to the key, the contract says only "at most the key" for earlier elements. The .NET search may return any equal element, not necessarily the leftmost.

## Findings

| source | as written | input that shows it | evidently intended | confidence | as-written member | corrected member |
|---|---|---|---|---|---|---|
| LevelDB/Impl/Level.cs:185 | `right` starts at `Files.Count - 1`. When every file's largest key is below the probe, `FindFile` returns `Count-1`, and `SomeFileOverlapsRange` then compares the query's upper bound with the last file's smallest key. | One file with user keys `[10, 20]` and the query range `[30, 40]`: the test reports an overlap although none exists. | `right` starts at `Files.Count`, as in LevelDB's `FindFile`. The index is then `Count`, and the test reports no overlap. | medium, not executed | `LevelIndex.SomeFileOverlapsRange` (exhibited by `OverlapFinding.AsWrittenFalsePositive`, `OverlapFinding.FalsePositiveWitness`) | `OverlapFinding.SomeFileOverlapsRangeIntended` |

The error is a false positive only. The as-written test never misses a real
overlap. `LevelIndex` keeps the as-written test, because it models
`Level.cs` as written. The corrected search and test live beside it in
`OverlapFinding`.
