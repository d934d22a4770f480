/** User keys, internal keys and their orders.

    A user key is a byte string compared lexicographically. An internal key
    adds a sequence number and a record kind; internal keys are ordered by
    ascending user key, then by descending sequence number (newer first), then
    by descending kind code, so that for one user key and one sequence number
    a `Value` sorts before a `Deletion`. The comparator itself is not part of
    this model: the kind tie-break is LevelDB's convention, assumed here. No
    lookup or overlap answer depends on it while sequence numbers are unique. */
module Keys {

  type UserKey = seq<int>

  /** The largest sequence number a write can carry (56 bits). */
  const MaxSequenceNumber: nat := 0x00FF_FFFF_FFFF_FFFF

  /** Strict lexicographic order on user keys: a proper prefix is smaller. */
  predicate LexLess(a: UserKey, b: UserKey)
    decreases |a|
  {
    if |a| == 0 then |b| > 0
    else if |b| == 0 then false
    else a[0] < b[0] || (a[0] == b[0] && LexLess(a[1..], b[1..]))
  }

  predicate LexLeq(a: UserKey, b: UserKey) {
    LexLess(a, b) || a == b
  }

  lemma {:induction false} LexLessIrreflexive(a: UserKey)
    ensures !LexLess(a, a)
  {
    if |a| > 0 {
      LexLessIrreflexive(a[1..]);
    }
  }

  lemma {:induction false} LexLessTransitive(a: UserKey, b: UserKey, c: UserKey)
    requires LexLess(a, b) && LexLess(b, c)
    ensures LexLess(a, c)
  {
    if |a| > 0 && a[0] == b[0] && b[0] == c[0] {
      LexLessTransitive(a[1..], b[1..], c[1..]);
    }
  }

  lemma {:induction false} LexTrichotomy(a: UserKey, b: UserKey)
    ensures LexLess(a, b) || a == b || LexLess(b, a)
  {
    if |a| > 0 && |b| > 0 && a[0] == b[0] {
      LexTrichotomy(a[1..], b[1..]);
      if a[1..] == b[1..] {
        assert a == [a[0]] + a[1..];
        assert b == [b[0]] + b[1..];
      }
    }
  }

  lemma LexAsymmetric(a: UserKey, b: UserKey)
    requires LexLess(a, b)
    ensures !LexLess(b, a)
  {
    if LexLess(b, a) {
      LexLessTransitive(a, b, a);
      LexLessIrreflexive(a);
    }
  }

  lemma LexAntisymmetric(a: UserKey, b: UserKey)
    requires LexLeq(a, b) && LexLeq(b, a)
    ensures a == b
  {
    if a != b {
      LexAsymmetric(a, b);
    }
  }

  lemma LexLessLeqTransitive(a: UserKey, b: UserKey, c: UserKey)
    requires LexLess(a, b) && LexLeq(b, c)
    ensures LexLess(a, c)
  {
    if b != c {
      LexLessTransitive(a, b, c);
    }
  }

  lemma LexLeqTransitive(a: UserKey, b: UserKey, c: UserKey)
    requires LexLeq(a, b) && LexLeq(b, c)
    ensures LexLeq(a, c)
  {
    if a != b && b != c {
      LexLessTransitive(a, b, c);
    }
  }

  /** Record kinds stored in a table; codes follow LevelDB's persistent ids. */
  datatype ValueType = Deletion | Value

  function Code(t: ValueType): nat {
    match t
    case Deletion => 0
    case Value => 1
  }

  datatype InternalKey = InternalKey(userKey: UserKey, sequence: nat, kind: ValueType)

  /** The internal-key comparator's strict order. */
  predicate IkLess(a: InternalKey, b: InternalKey) {
    || LexLess(a.userKey, b.userKey)
    || (a.userKey == b.userKey && (a.sequence > b.sequence || (a.sequence == b.sequence && Code(a.kind) > Code(b.kind))))
  }

  predicate IkLeq(a: InternalKey, b: InternalKey) {
    IkLess(a, b) || a == b
  }

  lemma IkLessIrreflexive(a: InternalKey)
    ensures !IkLess(a, a)
  {
    LexLessIrreflexive(a.userKey);
  }

  lemma IkLessTransitive(a: InternalKey, b: InternalKey, c: InternalKey)
    requires IkLess(a, b) && IkLess(b, c)
    ensures IkLess(a, c)
  {
    if LexLess(a.userKey, b.userKey) && LexLess(b.userKey, c.userKey) {
      LexLessTransitive(a.userKey, b.userKey, c.userKey);
    }
  }

  lemma IkLeqLessTransitive(a: InternalKey, b: InternalKey, c: InternalKey)
    requires IkLeq(a, b) && IkLess(b, c)
    ensures IkLess(a, c)
  {
    if a != b {
      IkLessTransitive(a, b, c);
    }
  }

  lemma IkLessLeqTransitive(a: InternalKey, b: InternalKey, c: InternalKey)
    requires IkLess(a, b) && IkLeq(b, c)
    ensures IkLess(a, c)
  {
    if b != c {
      IkLessTransitive(a, b, c);
    }
  }

  lemma IkAsymmetric(a: InternalKey, b: InternalKey)
    requires IkLess(a, b)
    ensures !IkLess(b, a)
  {
    if IkLess(b, a) {
      IkLessTransitive(a, b, a);
      IkLessIrreflexive(a);
    }
  }

  lemma IkTrichotomy(a: InternalKey, b: InternalKey)
    ensures IkLess(a, b) || a == b || IkLess(b, a)
  {
    LexTrichotomy(a.userKey, b.userKey);
  }

  /** Internal-key order refines user-key order. */
  lemma IkLeqUserKey(a: InternalKey, b: InternalKey)
    requires IkLeq(a, b)
    ensures LexLeq(a.userKey, b.userKey)
  {
  }

  /** The comparator's three-way answer, as `List<T>.BinarySearch` consumes it. */
  function Compare(a: InternalKey, b: InternalKey): (c: int)
    ensures c < 0 <==> IkLess(a, b)
    ensures c == 0 <==> a == b
    ensures c > 0 <==> IkLess(b, a)
  {
    IkTrichotomy(a, b);
    if IkLess(a, b) then (IkAsymmetric(a, b); -1)
    else if a == b then (IkLessIrreflexive(a); 0)
    else 1
  }

  /** `(u, MaxSequenceNumber, Value)` is the least internal key with user key
      `u`: a key with an admissible sequence number is below it exactly when
      its user key is below `u`. */
  lemma LeastKeyForUserKey(k: InternalKey, u: UserKey)
    requires k.sequence <= MaxSequenceNumber
    ensures IkLess(k, InternalKey(u, MaxSequenceNumber, Value)) <==> LexLess(k.userKey, u)
  {
  }

  /** A point-lookup request: the newest value of `userKey` visible at `sequence`. */
  datatype LookupKey = LookupKey(userKey: UserKey, sequence: nat)

  /** The seek key of a lookup: `(userKey, seq, Value)`. */
  function SeekKey(key: LookupKey): InternalKey {
    InternalKey(key.userKey, key.sequence, Value)
  }
}
