/** The `diagnosis_key` table behind `DiagnosisKeyRepository`, as the service
    sees it: a sequence of rows, the conflict rule of its insert-if-absent, and
    the queries and updates the service calls. */
module KeyRepository {
  import opened DiagnosisKeys

  /** The SQL conflict rule of `saveDoNothingOnConflict` as a predicate on the
      current rows and the row to insert. */
  type ConflictRule = (seq<DiagnosisKey>, DiagnosisKey) -> bool

  /** What any conflict rule of an insert-if-absent does: a row already in
      the table conflicts with itself, and a conflict stays a conflict when
      rows are added. */
  ghost predicate IsConflictRule(conflicts: ConflictRule)
  {
    && (forall store, key :: key in store ==> conflicts(store, key))
    && (forall store, more, key :: store <= more && conflicts(store, key) ==> conflicts(more, key))
  }

  /** The rule of a uniqueness constraint on `keyData` alone: the store
      already holds a row with the same `keyData`. */
  predicate KeyDataConflicts(store: seq<DiagnosisKey>, key: DiagnosisKey)
  {
    exists i :: 0 <= i < |store| && store[i].keyData == key.keyData
  }

  /** The rule of a uniqueness constraint on `keyData` and submission type. */
  predicate KeyDataAndTypeConflicts(store: seq<DiagnosisKey>, key: DiagnosisKey)
  {
    exists i :: 0 <= i < |store| && store[i].keyData == key.keyData
      && store[i].submissionType == key.submissionType
  }

  lemma KeyDataConflictsIsConflictRule()
    ensures IsConflictRule(KeyDataConflicts)
  {
    forall store: seq<DiagnosisKey>, key: DiagnosisKey | key in store ensures KeyDataConflicts(store, key) {
      var i :| 0 <= i < |store| && store[i] == key;
    }
    forall store: seq<DiagnosisKey>, more: seq<DiagnosisKey>, key: DiagnosisKey | store <= more && KeyDataConflicts(store, key)
      ensures KeyDataConflicts(more, key)
    {
      var i :| 0 <= i < |store| && store[i].keyData == key.keyData;
      assert more[i] == store[i];
    }
  }

  lemma KeyDataAndTypeConflictsIsConflictRule()
    ensures IsConflictRule(KeyDataAndTypeConflicts)
  {
    forall store: seq<DiagnosisKey>, key: DiagnosisKey | key in store ensures KeyDataAndTypeConflicts(store, key) {
      var i :| 0 <= i < |store| && store[i] == key;
    }
    forall store: seq<DiagnosisKey>, more: seq<DiagnosisKey>, key: DiagnosisKey | store <= more && KeyDataAndTypeConflicts(store, key)
      ensures KeyDataAndTypeConflicts(more, key)
    {
      var i :| 0 <= i < |store| && store[i].keyData == key.keyData
        && store[i].submissionType == key.submissionType;
      assert more[i] == store[i];
    }
  }

  /** The store holds a row with this `keyData` and this submission type. */
  predicate HasRecord(store: seq<DiagnosisKey>, keyData: seq<bv8>, submissionType: SubmissionType)
  {
    exists i :: 0 <= i < |store| && store[i].keyData == keyData && store[i].submissionType == submissionType
  }

  /** At most one row per `keyData`. */
  ghost predicate UniqueKeyData(store: seq<DiagnosisKey>)
  {
    forall i, j :: 0 <= i < j < |store| ==> store[i].keyData != store[j].keyData
  }

  /** The rows the retention purge removes: submitted strictly before `threshold`. */
  function OlderThan(store: seq<DiagnosisKey>, threshold: int): seq<DiagnosisKey>
  {
    Filter(store, (k: DiagnosisKey) => k.submissionTimestamp < threshold)
  }

  /** The rows the retention purge keeps, in their stored order. */
  function NotOlderThan(store: seq<DiagnosisKey>, threshold: int): seq<DiagnosisKey>
  {
    Filter(store, (k: DiagnosisKey) => k.submissionTimestamp >= threshold)
  }

  /** Every row is either purged or kept, and the two parts add up to the store. */
  lemma RetentionPartition(store: seq<DiagnosisKey>, threshold: int)
    ensures |OlderThan(store, threshold)| + |NotOlderThan(store, threshold)| == |store|
    ensures multiset(OlderThan(store, threshold)) + multiset(NotOlderThan(store, threshold)) == multiset(store)
  {
    FilterPartition(store, (k: DiagnosisKey) => k.submissionTimestamp < threshold, (k: DiagnosisKey) => k.submissionTimestamp >= threshold);
  }

  /** Dropping rows keeps `keyData` unique. */
  lemma NotOlderThanKeepsUnique(store: seq<DiagnosisKey>, threshold: int)
    requires UniqueKeyData(store)
    ensures UniqueKeyData(NotOlderThan(store, threshold))
  {
    FilterKeepsOrder(store, (k: DiagnosisKey) => k.submissionTimestamp >= threshold, (a: DiagnosisKey, b: DiagnosisKey) => a.keyData != b.keyData);
  }

  class DiagnosisKeyRepository {
    var records: seq<DiagnosisKey>
    const conflicts: ConflictRule

    ghost predicate Valid()
      reads this
    {
      IsConflictRule(conflicts)
    }

    constructor (conflicts: ConflictRule)
      requires IsConflictRule(conflicts)
      ensures Valid() && records == [] && this.conflicts == conflicts
    {
      records := [];
      this.conflicts := conflicts;
    }

    /** `exists(keyData, submissionType)`: some stored row has this `keyData`
        and this submission type. */
    predicate Exists(keyData: seq<bv8>, submissionType: SubmissionType): (b: bool)
      reads this
      ensures b <==> exists k :: k in records && k.keyData == keyData && k.submissionType == submissionType
    {
      HasRecord(records, keyData, submissionType)
    }

    /** `saveDoNothingOnConflict`: appends `key` and reports `true`, or, on a
        conflict, leaves the table as it was and reports `false`. */
    method SaveDoNothingOnConflict(key: DiagnosisKey) returns (inserted: bool)
      modifies this
      ensures inserted <==> !conflicts(old(records), key)
      ensures records == if inserted then old(records) + [key] else old(records)
    {
      inserted := !conflicts(records, key);
      if inserted {
        records := records + [key];
      }
    }

    /** `findAll(Sort.by(ASC, "submissionTimestamp"))`. */
    function FindAll(): (r: seq<DiagnosisKey>)
      reads this
      ensures SortedByTimestamp(r)
      ensures multiset(r) == multiset(records)
    {
      SortByTimestamp(records)
    }

    /** `findAllWithTrlGreaterThanOrEqual(minTrl, threshold)`. */
    function FindAllWithTrlGreaterThanOrEqual(minTrl: int, threshold: int): (r: seq<DiagnosisKey>)
      reads this
      ensures forall k :: k in r <==>
        k in records && k.transmissionRiskLevel >= minTrl && k.submissionTimestamp >= threshold
      ensures forall k :: multiset(r)[k] ==
                          if k.transmissionRiskLevel >= minTrl && k.submissionTimestamp >= threshold
                          then multiset(records)[k] else 0
    {
      Filter(records, (k: DiagnosisKey) => k.transmissionRiskLevel >= minTrl && k.submissionTimestamp >= threshold)
    }

    /** `countOlderThan(threshold)`: the number of rows a purge at `threshold` removes. */
    function CountOlderThan(threshold: int): (n: nat)
      reads this
      ensures n + |NotOlderThan(records, threshold)| == |records|
    {
      RetentionPartition(records, threshold);
      |OlderThan(records, threshold)|
    }

    /** `deleteOlderThan(threshold)`. */
    method DeleteOlderThan(threshold: int)
      modifies this
      ensures records == NotOlderThan(old(records), threshold)
    {
      records := NotOlderThan(records, threshold);
    }
  }
}
