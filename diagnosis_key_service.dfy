/** `DiagnosisKeyService`: conflict-aware batch save, the two read queries and
    the retention purge, over a `DiagnosisKeyRepository`. Each service call is
    one atomic step; the clock is the parameter `nowEpochSeconds`. */
module KeyService {
  import opened DiagnosisKeys
  import opened RetentionThreshold
  import opened KeyRepository

  /** The store after a save and the number of rows the save added. */
  datatype SaveOutcome = SaveOutcome(store: seq<DiagnosisKey>, inserted: nat)

  /** One iteration of the save loop: a key whose `keyData` already has a
      PCR-test row is skipped; otherwise it is inserted unless it conflicts. */
  function SaveOne(conflicts: ConflictRule, store: seq<DiagnosisKey>, key: DiagnosisKey): (o: SaveOutcome)
    ensures o.inserted <= 1
    ensures o.inserted == 1 <==>
      !HasRecord(store, key.keyData, SUBMISSION_TYPE_PCR_TEST) && !conflicts(store, key)
    ensures store <= o.store && |o.store| == |store| + o.inserted
    ensures o.inserted == 1 ==> o.store[|store|] == key
  {
    if HasRecord(store, key.keyData, SUBMISSION_TYPE_PCR_TEST) then SaveOutcome(store, 0)
    else if conflicts(store, key) then SaveOutcome(store, 0)
    else SaveOutcome(store + [key], 1)
  }

  /** Under the `keyData` conflict rule the PCR-test pre-check never changes
      the outcome: a key is inserted exactly when its `keyData` is absent. */
  lemma SaveOneIsInsertIfAbsent(store: seq<DiagnosisKey>, key: DiagnosisKey)
    ensures SaveOne(KeyDataConflicts, store, key).inserted == 1 <==> !KeyDataConflicts(store, key)
  {
    if HasRecord(store, key.keyData, SUBMISSION_TYPE_PCR_TEST) {
      var i :| 0 <= i < |store| && store[i].keyData == key.keyData
        && store[i].submissionType == SUBMISSION_TYPE_PCR_TEST;
      assert KeyDataConflicts(store, key);
    }
  }

  /** The whole save loop over `keys`, in order: the store only grows, by
      exactly `inserted` rows, each of them one of the submitted keys. */
  function SaveAll(conflicts: ConflictRule, store: seq<DiagnosisKey>, keys: seq<DiagnosisKey>): (o: SaveOutcome)
    decreases |keys|
    ensures o.inserted <= |keys|
    ensures store <= o.store
    ensures |o.store| == |store| + o.inserted
    ensures forall i :: |store| <= i < |o.store| ==> o.store[i] in keys
  {
    if keys == [] then SaveOutcome(store, 0)
    else
      var prev := SaveAll(conflicts, store, keys[..|keys| - 1]);
      var step := SaveOne(conflicts, prev.store, keys[|keys| - 1]);
      SaveOutcome(step.store, prev.inserted + step.inserted)
  }

  /** A stored PCR-test row stays where it is, and no row with its `keyData`
      is added by any later save, whatever the conflict rule. */
  lemma {:induction false} SaveAllKeepsPcrRecord(conflicts: ConflictRule, store: seq<DiagnosisKey>, keys: seq<DiagnosisKey>, i: nat)
    requires i < |store| && store[i].submissionType == SUBMISSION_TYPE_PCR_TEST
    ensures SaveAll(conflicts, store, keys).store[i] == store[i]
    ensures forall j :: |store| <= j < |SaveAll(conflicts, store, keys).store| ==>
      SaveAll(conflicts, store, keys).store[j].keyData != store[i].keyData
  {
    if keys != [] {
      var init := keys[..|keys| - 1];
      SaveAllKeepsPcrRecord(conflicts, store, init, i);
      var prev := SaveAll(conflicts, store, init);
      assert prev.store[i] == store[i];
      assert HasRecord(prev.store, store[i].keyData, SUBMISSION_TYPE_PCR_TEST);
    }
  }

  /** Under the `keyData` conflict rule a save keeps at most one row per `keyData`. */
  lemma {:induction false} SaveAllKeepsUnique(store: seq<DiagnosisKey>, keys: seq<DiagnosisKey>)
    requires UniqueKeyData(store)
    ensures UniqueKeyData(SaveAll(KeyDataConflicts, store, keys).store)
  {
    if keys != [] {
      SaveAllKeepsUnique(store, keys[..|keys| - 1]);
    }
  }

  /** A key that the save loop would skip: its `keyData` has a PCR-test row,
      or it conflicts with the store. */
  predicate Settled(conflicts: ConflictRule, store: seq<DiagnosisKey>, key: DiagnosisKey)
  {
    HasRecord(store, key.keyData, SUBMISSION_TYPE_PCR_TEST) || conflicts(store, key)
  }

  /** A settled key stays settled when rows are added. */
  lemma SettledGrows(conflicts: ConflictRule, store: seq<DiagnosisKey>, more: seq<DiagnosisKey>, key: DiagnosisKey)
    requires IsConflictRule(conflicts)
    requires store <= more && Settled(conflicts, store, key)
    ensures Settled(conflicts, more, key)
  {
    if HasRecord(store, key.keyData, SUBMISSION_TYPE_PCR_TEST) {
      var i :| 0 <= i < |store| && store[i].keyData == key.keyData
        && store[i].submissionType == SUBMISSION_TYPE_PCR_TEST;
      assert more[i] == store[i];
    }
  }

  /** After a save, every submitted key would be skipped if submitted again. */
  lemma {:induction false} SaveAllSettlesKeys(conflicts: ConflictRule, store: seq<DiagnosisKey>, keys: seq<DiagnosisKey>)
    requires IsConflictRule(conflicts)
    ensures forall k :: k in keys ==> Settled(conflicts, SaveAll(conflicts, store, keys).store, k)
  {
    if keys != [] {
      var init, last := keys[..|keys| - 1], keys[|keys| - 1];
      SaveAllSettlesKeys(conflicts, store, init);
      var prev := SaveAll(conflicts, store, init).store;
      var post := SaveAll(conflicts, store, keys).store;
      forall k | k in keys ensures Settled(conflicts, post, k) {
        if k in init {
          SettledGrows(conflicts, prev, post, k);
        } else {
          assert k == last;
          if !Settled(conflicts, prev, k) {
            assert post == prev + [k];
            assert k in post;
          }
        }
      }
    }
  }

  /** A batch of settled keys changes nothing and inserts nothing. */
  lemma {:induction false} SaveAllOfSettledKeys(conflicts: ConflictRule, store: seq<DiagnosisKey>, keys: seq<DiagnosisKey>)
    requires forall k :: k in keys ==> Settled(conflicts, store, k)
    ensures SaveAll(conflicts, store, keys) == SaveOutcome(store, 0)
  {
    if keys != [] {
      SaveAllOfSettledKeys(conflicts, store, keys[..|keys| - 1]);
      assert keys[|keys| - 1] in keys;
    }
  }

  /** Saving the same batch again inserts nothing and leaves the store as it is. */
  lemma SaveAllIdempotent(conflicts: ConflictRule, store: seq<DiagnosisKey>, keys: seq<DiagnosisKey>)
    requires IsConflictRule(conflicts)
    ensures var first := SaveAll(conflicts, store, keys).store;
      SaveAll(conflicts, first, keys) == SaveOutcome(first, 0)
  {
    SaveAllSettlesKeys(conflicts, store, keys);
    SaveAllOfSettledKeys(conflicts, SaveAll(conflicts, store, keys).store, keys);
  }

  function SampleKey(keyData: seq<bv8>, submissionType: SubmissionType): DiagnosisKey
  {
    DiagnosisKey(keyData, submissionType, 1, 2, 3, 4, false, "DE", {"DE"}, CONFIRMED_TEST, 1)
  }

  /** Under the `keyData` rule, saving [A as PCR, B as rapid test] into an
      empty store, then [A as rapid test], leaves A as PCR and B as rapid test;
      the second save inserts nothing. */
  lemma SavePcrThenRapidExample()
    ensures var a, b := SampleKey([1], SUBMISSION_TYPE_PCR_TEST), SampleKey([2], SUBMISSION_TYPE_RAPID_TEST);
      var first := SaveAll(KeyDataConflicts, [], [a, b]);
      var second := SaveAll(KeyDataConflicts, first.store, [SampleKey([1], SUBMISSION_TYPE_RAPID_TEST)]);
      first == SaveOutcome([a, b], 2) && second == SaveOutcome([a, b], 0)
  {
    var a, b := SampleKey([1], SUBMISSION_TYPE_PCR_TEST), SampleKey([2], SUBMISSION_TYPE_RAPID_TEST);
    var ab := [a, b];
    assert ab[..1] == [a] && [a][..0] == [];
    assert SaveAll(KeyDataConflicts, [], [a]) == SaveOutcome([a], 1);
    assert SaveAll(KeyDataConflicts, [], ab) == SaveOutcome(ab, 2);
    var rapidA := SampleKey([1], SUBMISSION_TYPE_RAPID_TEST);
    assert [rapidA][..0] == [];
    assert HasRecord(ab, rapidA.keyData, SUBMISSION_TYPE_PCR_TEST) by { assert ab[0] == a; }
  }

  /** Under a rule on `keyData` and submission type, a PCR key is added next
      to a stored rapid-test row; from then on the PCR-test pre-check, not the
      rule, turns away a host-collected resubmission of the same `keyData`. */
  lemma RapidThenPcrExample()
    ensures var rapidA, pcrA := SampleKey([1], SUBMISSION_TYPE_RAPID_TEST), SampleKey([1], SUBMISSION_TYPE_PCR_TEST);
      var hostA := SampleKey([1], SUBMISSION_TYPE_HOST_COLLECTED);
      && SaveAll(KeyDataAndTypeConflicts, [rapidA], [pcrA]) == SaveOutcome([rapidA, pcrA], 1)
      && !KeyDataAndTypeConflicts([rapidA, pcrA], hostA)
      && SaveAll(KeyDataAndTypeConflicts, [rapidA, pcrA], [hostA]) == SaveOutcome([rapidA, pcrA], 0)
  {
    var rapidA, pcrA := SampleKey([1], SUBMISSION_TYPE_RAPID_TEST), SampleKey([1], SUBMISSION_TYPE_PCR_TEST);
    var hostA := SampleKey([1], SUBMISSION_TYPE_HOST_COLLECTED);
    assert [pcrA][..0] == [] && [hostA][..0] == [];
    assert !HasRecord([rapidA], pcrA.keyData, SUBMISSION_TYPE_PCR_TEST);
    assert HasRecord([rapidA, pcrA], hostA.keyData, SUBMISSION_TYPE_PCR_TEST) by { assert [rapidA, pcrA][1] == pcrA; }
  }

  /** A purge that repeats with the same threshold finds nothing older to remove. */
  lemma RetentionIdempotent(store: seq<DiagnosisKey>, threshold: int)
    ensures NotOlderThan(NotOlderThan(store, threshold), threshold) == NotOlderThan(store, threshold)
    ensures OlderThan(NotOlderThan(store, threshold), threshold) == []
  {
    var kept := NotOlderThan(store, threshold);
    FilterIdempotent(store, (k: DiagnosisKey) => k.submissionTimestamp >= threshold);
    RetentionPartition(kept, threshold);
  }

  /** Retaining more days keeps every row that retaining fewer days keeps. */
  lemma RetentionMonotoneInDays(store: seq<DiagnosisKey>, d1: Int32, d2: Int32, nowEpochSeconds: int)
    requires 0 <= d1 <= d2
    ensures forall k :: k in NotOlderThan(store, DaysToSeconds(d1, nowEpochSeconds).value) ==>
      k in NotOlderThan(store, DaysToSeconds(d2, nowEpochSeconds).value)
  {
    DaysToSecondsAntitone(d1, d2, nowEpochSeconds);
  }

  /** A row submitted in the hour exactly ten days before now is purged when
      nine days are retained and kept when ten or eleven days are. */
  lemma RetentionWindowExample(store: seq<DiagnosisKey>, key: DiagnosisKey, nowEpochSeconds: int)
    requires nowEpochSeconds >= 11 * SECONDS_PER_DAY
    requires key in store
    requires key.submissionTimestamp == JavaDiv(nowEpochSeconds - 10 * SECONDS_PER_DAY, SECONDS_PER_HOUR)
    ensures key !in NotOlderThan(store, DaysToSeconds(9, nowEpochSeconds).value)
    ensures key in NotOlderThan(store, DaysToSeconds(10, nowEpochSeconds).value)
    ensures key in NotOlderThan(store, DaysToSeconds(11, nowEpochSeconds).value)
  {
    DaysToSecondsDayStep(9, nowEpochSeconds);
    DaysToSecondsDayStep(10, nowEpochSeconds);
  }

  class DiagnosisKeyService {
    const keyRepository: DiagnosisKeyRepository
    /** `ValidDiagnosisKeyFilter`: which keys the read queries let through. */
    const validationFilter: DiagnosisKey -> bool

    constructor (keyRepository: DiagnosisKeyRepository, filter: DiagnosisKey -> bool)
      ensures this.keyRepository == keyRepository && validationFilter == filter
    {
      this.keyRepository := keyRepository;
      validationFilter := filter;
    }

    /** `saveDiagnosisKeys`: returns the number of inserted keys; the number
        it logs as conflicting is the ghost `conflictingKeys`. */
    method SaveDiagnosisKeys(diagnosisKeys: seq<DiagnosisKey>) returns (numberOfInsertedKeys: nat, ghost conflictingKeys: nat)
      modifies keyRepository
      ensures SaveAll(keyRepository.conflicts, old(keyRepository.records), diagnosisKeys)
        == SaveOutcome(keyRepository.records, numberOfInsertedKeys)
      ensures old(keyRepository.records) <= keyRepository.records
      ensures |keyRepository.records| == |old(keyRepository.records)| + numberOfInsertedKeys
      ensures numberOfInsertedKeys + conflictingKeys == |diagnosisKeys|
      ensures keyRepository.conflicts == KeyDataConflicts && UniqueKeyData(old(keyRepository.records)) ==>
        UniqueKeyData(keyRepository.records)
    {
      ghost var before := keyRepository.records;
      numberOfInsertedKeys := 0;
      for i := 0 to |diagnosisKeys|
        invariant SaveAll(keyRepository.conflicts, before, diagnosisKeys[..i])
          == SaveOutcome(keyRepository.records, numberOfInsertedKeys)
      {
        var diagnosisKey := diagnosisKeys[i];
        assert diagnosisKeys[..i + 1][..i] == diagnosisKeys[..i];
        if keyRepository.Exists(diagnosisKey.keyData, SUBMISSION_TYPE_PCR_TEST) {
          continue;
        }
        var keyInsertedSuccessfully := keyRepository.SaveDoNothingOnConflict(diagnosisKey);
        if keyInsertedSuccessfully {
          numberOfInsertedKeys := numberOfInsertedKeys + 1;
        }
      }
      assert diagnosisKeys[..|diagnosisKeys|] == diagnosisKeys;
      conflictingKeys := |diagnosisKeys| - numberOfInsertedKeys;
      if keyRepository.conflicts == KeyDataConflicts && UniqueKeyData(before) {
        SaveAllKeepsUnique(before, diagnosisKeys);
      }
    }

    /** `getDiagnosisKeys`: the valid stored keys, ascending by submission timestamp. */
    function GetDiagnosisKeys(): (r: seq<DiagnosisKey>)
      reads keyRepository
      ensures SortedByTimestamp(r)
      ensures forall k :: k in r <==> k in keyRepository.records && validationFilter(k)
      ensures forall k :: multiset(r)[k] == if validationFilter(k) then multiset(keyRepository.records)[k] else 0
    {
      var diagnosisKeys := keyRepository.FindAll();
      assert forall k :: k in multiset(diagnosisKeys) <==> k in diagnosisKeys;
      assert forall k :: k in multiset(keyRepository.records) <==> k in keyRepository.records;
      FilterKeepsOrder(diagnosisKeys, validationFilter,
        (a: DiagnosisKey, b: DiagnosisKey) => a.submissionTimestamp <= b.submissionTimestamp);
      Filter(diagnosisKeys, validationFilter)
    }

    /** `getDiagnosisKeysWithMinTrl`: rejects a negative day count; otherwise
        the valid stored keys at or above the risk level, submitted no earlier
        than the threshold `daysToFetch` days back. */
    function GetDiagnosisKeysWithMinTrl(minTrl: Int32, daysToFetch: Int32, nowEpochSeconds: int): (r: Result<seq<DiagnosisKey>>)
      reads keyRepository
      ensures r.Failure? <==> daysToFetch < 0
      ensures r.Failure? ==> r.error == IllegalArgument(NEGATIVE_DAYS_MESSAGE)
      ensures r.Success? ==> forall k :: k in r.value <==>
        && k in keyRepository.records
        && k.transmissionRiskLevel >= minTrl
        && k.submissionTimestamp >= DaysToSeconds(daysToFetch, nowEpochSeconds).value
        && validationFilter(k)
      ensures r.Success? ==> forall k :: (multiset(r.value)[k] ==
        if && k.transmissionRiskLevel >= minTrl
           && k.submissionTimestamp >= DaysToSeconds(daysToFetch, nowEpochSeconds).value
           && validationFilter(k)
        then multiset(keyRepository.records)[k] else 0)
    {
      var threshold :- DaysToSeconds(daysToFetch, nowEpochSeconds);
      Success(Filter(keyRepository.FindAllWithTrlGreaterThanOrEqual(minTrl, threshold), validationFilter))
    }

    /** `applyRetentionPolicy`: rejects a negative day count and changes
        nothing; otherwise deletes exactly the rows older than the threshold.
        The number it logs is the ghost `numberOfDeletions`, which is the
        number deleted. */
    method ApplyRetentionPolicy(daysToRetain: Int32, nowEpochSeconds: int) returns (r: Result<()>, ghost numberOfDeletions: nat)
      modifies keyRepository
      ensures daysToRetain < 0 ==>
        r == Failure(IllegalArgument(NEGATIVE_DAYS_MESSAGE)) && keyRepository.records == old(keyRepository.records)
      ensures daysToRetain >= 0 ==>
        var threshold := DaysToSeconds(daysToRetain, nowEpochSeconds).value;
        && r.Success?
        && keyRepository.records == NotOlderThan(old(keyRepository.records), threshold)
        && (forall k :: k in keyRepository.records <==>
              k in old(keyRepository.records) && k.submissionTimestamp >= threshold)
        && numberOfDeletions == |old(keyRepository.records)| - |keyRepository.records|
      ensures UniqueKeyData(old(keyRepository.records)) ==> UniqueKeyData(keyRepository.records)
    {
      numberOfDeletions := 0;
      var threshold :- DaysToSeconds(daysToRetain, nowEpochSeconds);
      numberOfDeletions := keyRepository.CountOlderThan(threshold);
      if UniqueKeyData(keyRepository.records) {
        NotOlderThanKeepsUnique(keyRepository.records, threshold);
      }
      keyRepository.DeleteOlderThan(threshold);
      r := Success(());
    }
  }
}
