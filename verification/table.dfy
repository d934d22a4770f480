/** The contents of one sorted table file, as the table cache exposes them.

    A table is a sequence of `(InternalKey, value)` entries. Opening an
    iterator, seeking to a key and taking `HasNext`/`Next` yields the first
    entry whose key is not below the seek key; `Seek` is that composite. */
module Table {
  import opened Wrappers
  import opened Keys
  import opened Search

  datatype Entry = Entry(key: InternalKey, value: seq<int>)

  function KeysOf(entries: seq<Entry>): (ks: seq<InternalKey>)
    ensures |ks| == |entries|
    ensures forall i :: 0 <= i < |entries| ==> ks[i] == entries[i].key
  {
    seq(|entries|, i requires 0 <= i < |entries| => entries[i].key)
  }

  /** A well-formed table lists its entries in strictly ascending key order. */
  predicate StrictlySorted(entries: seq<Entry>) {
    StrictlySortedKeys(KeysOf(entries))
  }

  /** `iterator.Seek(target)` then `HasNext()`/`Next()`. */
  function Seek(entries: seq<Entry>, target: InternalKey): (r: Option<Entry>)
    ensures r.None? <==> forall i :: 0 <= i < |entries| ==> IkLess(entries[i].key, target)
    ensures r.Some? ==>
      exists h :: 0 <= h < |entries| && entries[h] == r.value && !IkLess(r.value.key, target)
        && forall j :: 0 <= j < h ==> IkLess(entries[j].key, target)
  {
    var h := LowerBound(KeysOf(entries), target);
    if h < |entries| then Some(entries[h]) else None
  }

  /** An entry a lookup of `key` may observe: same user key, written at or
      before the snapshot. */
  predicate Visible(e: Entry, key: LookupKey) {
    e.key.userKey == key.userKey && e.key.sequence <= key.sequence
  }

  /** Snapshot reads: on a sorted table, seeking to the lookup's seek key lands
      on an entry of the same user key exactly when some entry is visible, and
      that entry is then the newest visible one. */
  lemma SeekFindsNewestVisible(entries: seq<Entry>, key: LookupKey)
    requires StrictlySorted(entries)
    ensures var r := Seek(entries, SeekKey(key));
      (r.Some? && r.value.key.userKey == key.userKey) <==>
        exists i :: 0 <= i < |entries| && Visible(entries[i], key)
    ensures var r := Seek(entries, SeekKey(key));
      r.Some? && r.value.key.userKey == key.userKey ==>
        && r.value in entries
        && Visible(r.value, key)
        && forall i :: 0 <= i < |entries| && Visible(entries[i], key) ==>
             entries[i].key.sequence <= r.value.key.sequence
  {
    var t := SeekKey(key);
    var ks := KeysOf(entries);
    var h := LowerBound(ks, t);
    LexLessIrreflexive(key.userKey);
    if exists i :: 0 <= i < |entries| && Visible(entries[i], key) {
      // t <= entries[h].key <= entries[i].key, and both ends carry the user key
      var i :| 0 <= i < |entries| && Visible(entries[i], key);
      assert !IkLess(entries[i].key, t);
      assert h <= i;
      if h < i {
        assert IkLess(ks[h], ks[i]);
      }
      IkLeqUserKey(entries[h].key, entries[i].key);
      IkTrichotomy(t, entries[h].key);
      IkLeqUserKey(t, entries[h].key);
      LexAntisymmetric(key.userKey, entries[h].key.userKey);
    }
    if h < |entries| && entries[h].key.userKey == key.userKey {
      assert Visible(entries[h], key);
      forall i | 0 <= i < |entries| && Visible(entries[i], key)
        ensures entries[i].key.sequence <= entries[h].key.sequence
      {
        assert !IkLess(entries[i].key, t);
        assert h <= i;
        if h < i {
          assert IkLess(ks[h], ks[i]);
        }
      }
    }
  }

  /** `e` is the newest entry of `entries` that a lookup of `key` may observe. */
  predicate NewestVisible(entries: seq<Entry>, e: Entry, key: LookupKey) {
    && e in entries
    && Visible(e, key)
    && forall e' :: e' in entries && Visible(e', key) ==> e'.key.sequence <= e.key.sequence
  }
}
