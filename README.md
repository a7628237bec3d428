# Diagnosis-key store: save, query and retention

A Dafny model of `DiagnosisKeyService`, the service in front of the
diagnosis-key table of the Corona-Warn-App server. It models:

- the conflict-aware batch save `saveDiagnosisKeys`: a loop over the
  submitted keys that skips every key whose `keyData` already has a PCR-test
  row. It tries an insert-if-absent for every other key and counts only the
  inserts that added a row. It reports `size - inserted` as conflicting;
- the read queries `getDiagnosisKeys` and `getDiagnosisKeysWithMinTrl`;
- the retention purge `applyRetentionPolicy`: it counts, then deletes, the
  rows older than a threshold;
- the threshold arithmetic `daysToSeconds`, with Java's truncating `long`
  division written out.

Files:

- `diagnosis_key.dfy` (module `DiagnosisKeys`): the row type, Java `int`,
  the `Result` type for `IllegalArgumentException`, an order-keeping
  `Filter` and the ascending sort by submission timestamp.
- `retention_threshold.dfy` (module `RetentionThreshold`): `daysToSeconds`
  and the facts about Java division it rests on.
- `diagnosis_key_repository.dfy` (module `KeyRepository`): the table as a
  class whose field `records` is the sequence of rows, with the conflict rule
  of its insert-if-absent and the repository calls the service makes.
- `diagnosis_key_service.dfy` (module `KeyService`): the pure
  specification of the save loop (`SaveOne`, `SaveAll`) and the lemmas about
  it and about retention. It also holds the class `DiagnosisKeyService`.
  Its `SaveDiagnosisKeys` keeps the source's `for` loop and `continue`, and
  is proved against `SaveAll`.

Modelling choices:

- The clock `Instant.now()` is the parameter `nowEpochSeconds`.
  `LocalDateTime.minusDays` in UTC subtracts exactly 86400 seconds per day.
- `SECONDS_PER_HOUR` comes from a validator class that is not part of this
  model. It is the constant 3600, as its name says. The lemmas about Java
  division hold for every positive divisor.
- `daysToSeconds` is documented as returning epoch seconds. The code divides
  by `SECONDS_PER_HOUR`, so it returns hours since the epoch, the unit of
  `submissionTimestamp`. The model follows the code.
- The SQL of `saveDoNothingOnConflict` is not part of this model, so its
  conflict rule is a parameter of the repository (`conflicts`). The model
  assumes only two things of it (`IsConflictRule`): a row already in the
  table conflicts with itself, and a conflict stays a conflict when rows are
  added. Save counting, store growth and PCR precedence hold for every rule.
  Idempotence of a repeated save needs these two assumptions.
- Two concrete rules are modelled as instances. `KeyDataConflicts` is a
  uniqueness constraint on `keyData` alone. Under it, `keyData` stays unique,
  and the PCR-test pre-check never changes which keys are inserted
  (`SaveOneIsInsertIfAbsent`). `KeyDataAndTypeConflicts` is a constraint on
  `keyData` and submission type. Under it, a PCR key is added next to a
  stored rapid-test row, and after that only the pre-check turns away other
  types (`RapidThenPcrExample`).
- `ValidDiagnosisKeyFilter` is the function-valued field `validationFilter`,
  given to the constructor as in the source. It filters element by element
  and keeps order.
- Keys and their fields are never null, because Dafny datatype values
  cannot be null. The null-failure paths are listed under "## Left out".
- The counts the service only logs are ghost out-parameters:
  `conflictingKeys` from the save and `numberOfDeletions` from the purge.

## Model

| member | source | states |
|---|---|---|
| DiagnosisKeys.SortByTimestamp | common/persistence/src/main/java/app/coronawarn/server/common/persistence/service/DiagnosisKeyService.java:84-85 | the result is in ascending submission-timestamp order and holds the same rows (as a multiset) as the input |
| DiagnosisKeys.Filter | common/persistence/src/main/java/app/coronawarn/server/common/persistence/service/DiagnosisKeyService.java:86 | the result holds exactly the input elements that satisfy the predicate, each as often as in the input, and no others |
| DiagnosisKeys.FilterKeepsOrder | common/persistence/src/main/java/app/coronawarn/server/common/persistence/service/DiagnosisKeyService.java:86 | filtering keeps every pairwise order the input had, so a sorted input gives a sorted result |
| DiagnosisKeys.FilterPartition | common/persistence/src/main/java/app/coronawarn/server/common/persistence/service/DiagnosisKeyService.java:112-115 | filtering by a predicate and by its negation splits the input: the two multisets add up to it |
| DiagnosisKeys.FilterIdempotent | common/persistence/src/main/java/app/coronawarn/server/common/persistence/service/DiagnosisKeyService.java:115 | filtering twice by the same predicate equals filtering once |
| RetentionThreshold.JavaDiv | common/persistence/src/main/java/app/coronawarn/server/common/persistence/service/DiagnosisKeyService.java:129-132 | the quotient is Java's: truncated toward zero, so the remainder has the sign of the dividend and is smaller than the divisor |
| RetentionThreshold.TruncatedQuotientUnique | common/persistence/src/main/java/app/coronawarn/server/common/persistence/service/DiagnosisKeyService.java:132 | at most one quotient meets that relation, so it fixes the result of the division |
| RetentionThreshold.JavaDivMonotone | common/persistence/src/main/java/app/coronawarn/server/common/persistence/service/DiagnosisKeyService.java:132 | Java division by a positive divisor preserves the order of dividends |
| RetentionThreshold.JavaDivShift | common/persistence/src/main/java/app/coronawarn/server/common/persistence/service/DiagnosisKeyService.java:132 | adding n whole divisors to a dividend of unchanged sign adds exactly n to the quotient |
| RetentionThreshold.DaysToSeconds | common/persistence/src/main/java/app/coronawarn/server/common/persistence/service/DiagnosisKeyService.java:124-133 | fails with the illegal-argument message exactly when the day count is negative; otherwise returns the truncated hour of now minus 86400 seconds per day |
| RetentionThreshold.DaysToSecondsAntitone | common/persistence/src/main/java/app/coronawarn/server/common/persistence/service/DiagnosisKeyService.java:129-132 | a larger day count never gives a later threshold |
| RetentionThreshold.DaysToSecondsDayStep | common/persistence/src/main/java/app/coronawarn/server/common/persistence/service/DiagnosisKeyService.java:129-132 | while the instant stays on one side of the epoch, each extra day moves the threshold back by exactly 24 hours |
| RetentionThreshold.DaysToSecondsAtIntMax | common/persistence/src/main/java/app/coronawarn/server/common/persistence/service/DiagnosisKeyService.java:124-132 | Integer.MAX_VALUE days is accepted; from a 2020 clock the threshold is negative and Java truncation gives one more than floor division |
| KeyRepository.RetentionPartition | common/persistence/src/main/java/app/coronawarn/server/common/persistence/service/DiagnosisKeyService.java:111-115 | the rows a purge counts and the rows it keeps add up to the store, as counts and as multisets |
| KeyRepository.NotOlderThanKeepsUnique | common/persistence/src/main/java/app/coronawarn/server/common/persistence/service/DiagnosisKeyService.java:115 | deleting rows keeps keyData unique |
| KeyRepository.KeyDataConflictsIsConflictRule | common/persistence/src/main/java/app/coronawarn/server/common/persistence/service/DiagnosisKeyService.java:57-62 | a uniqueness constraint on keyData alone meets both assumptions on a conflict rule |
| KeyRepository.KeyDataAndTypeConflictsIsConflictRule | common/persistence/src/main/java/app/coronawarn/server/common/persistence/service/DiagnosisKeyService.java:57-62 | a uniqueness constraint on keyData and submission type meets both assumptions too |
| KeyRepository.DiagnosisKeyRepository.Exists | common/persistence/src/main/java/app/coronawarn/server/common/persistence/service/DiagnosisKeyService.java:53 | true exactly when some stored row has the given keyData and submission type |
| KeyRepository.DiagnosisKeyRepository.SaveDoNothingOnConflict | common/persistence/src/main/java/app/coronawarn/server/common/persistence/service/DiagnosisKeyService.java:57-62 | reports true exactly when the key does not conflict with the table under the repository's rule, and then appends it; otherwise the table is unchanged |
| KeyRepository.DiagnosisKeyRepository.FindAll | common/persistence/src/main/java/app/coronawarn/server/common/persistence/service/DiagnosisKeyService.java:84-85 | all stored rows, ascending by submission timestamp |
| KeyRepository.DiagnosisKeyRepository.FindAllWithTrlGreaterThanOrEqual | common/persistence/src/main/java/app/coronawarn/server/common/persistence/service/DiagnosisKeyService.java:97-98 | exactly the stored rows with risk level at least minTrl and timestamp at least the threshold, each as often as it is stored |
| KeyRepository.DiagnosisKeyRepository.CountOlderThan | common/persistence/src/main/java/app/coronawarn/server/common/persistence/service/DiagnosisKeyService.java:112 | the count plus the number of rows kept by the purge equals the number of rows |
| KeyRepository.DiagnosisKeyRepository.DeleteOlderThan | common/persistence/src/main/java/app/coronawarn/server/common/persistence/service/DiagnosisKeyService.java:115 | the new table is the old one without the rows older than the threshold, in the same order |
| KeyService.SaveOne | common/persistence/src/main/java/app/coronawarn/server/common/persistence/service/DiagnosisKeyService.java:53-66 | one iteration: inserts (count 1) exactly when no PCR-test row has the keyData and the key does not conflict under the given rule; the store only grows, by that key |
| KeyService.SaveOneIsInsertIfAbsent | common/persistence/src/main/java/app/coronawarn/server/common/persistence/service/DiagnosisKeyService.java:53-62 | under the keyData-only rule the PCR-test pre-check never matters: a key is inserted exactly when its keyData is absent |
| KeyService.SaveAll | common/persistence/src/main/java/app/coronawarn/server/common/persistence/service/DiagnosisKeyService.java:49-67 | the whole loop, for any conflict rule: inserted count at most the batch size; the old store is a prefix of the new one, which is longer by exactly the count; every added row is a submitted key |
| KeyService.SaveAllKeepsPcrRecord | common/persistence/src/main/java/app/coronawarn/server/common/persistence/service/DiagnosisKeyService.java:36-41 | for any conflict rule, a stored PCR-test row stays unchanged in place, and no later save adds another row with its keyData |
| KeyService.SaveAllKeepsUnique | common/persistence/src/main/java/app/coronawarn/server/common/persistence/service/DiagnosisKeyService.java:57-62 | under the keyData-only rule a save keeps at most one row per keyData |
| KeyService.SettledGrows | common/persistence/src/main/java/app/coronawarn/server/common/persistence/service/DiagnosisKeyService.java:53-62 | a key that would be skipped (PCR row for its keyData, or a conflict) stays skipped when rows are added |
| KeyService.SaveAllSettlesKeys | common/persistence/src/main/java/app/coronawarn/server/common/persistence/service/DiagnosisKeyService.java:51-67 | after a save every submitted key would be skipped if submitted again |
| KeyService.SaveAllOfSettledKeys | common/persistence/src/main/java/app/coronawarn/server/common/persistence/service/DiagnosisKeyService.java:51-67 | a batch of keys that would all be skipped inserts nothing and changes nothing |
| KeyService.SaveAllIdempotent | common/persistence/src/main/java/app/coronawarn/server/common/persistence/service/DiagnosisKeyService.java:48-76 | for any rule meeting the two assumptions, saving the same batch again inserts 0 and leaves the store as it is |
| KeyService.SavePcrThenRapidExample | common/persistence/src/main/java/app/coronawarn/server/common/persistence/service/DiagnosisKeyService.java:36-41 | under the keyData-only rule, saving [A as PCR, B as rapid] then [A as rapid] keeps A as PCR and B as rapid; the second save inserts 0 |
| KeyService.RapidThenPcrExample | common/persistence/src/main/java/app/coronawarn/server/common/persistence/service/DiagnosisKeyService.java:36-41 | under the keyData-and-type rule, A as PCR is added beside a stored A as rapid; A host-collected is then turned away by the PCR-test pre-check although the rule alone would admit it |
| KeyService.RetentionIdempotent | common/persistence/src/main/java/app/coronawarn/server/common/persistence/service/DiagnosisKeyService.java:110-116 | a second purge with the same threshold keeps everything and finds nothing older |
| KeyService.RetentionMonotoneInDays | common/persistence/src/main/java/app/coronawarn/server/common/persistence/service/DiagnosisKeyService.java:110-116 | retaining more days keeps every row that retaining fewer days keeps |
| KeyService.RetentionWindowExample | common/persistence/src/main/java/app/coronawarn/server/common/persistence/service/DiagnosisKeyService.java:110-132 | a row from exactly 10 days ago is purged when 9 days are retained and kept for 10 or 11 |
| KeyService.DiagnosisKeyService.constructor | common/persistence/src/main/java/app/coronawarn/server/common/persistence/service/DiagnosisKeyService.java:31-34 | the service holds the given repository and validity filter |
| KeyService.DiagnosisKeyService.SaveDiagnosisKeys | common/persistence/src/main/java/app/coronawarn/server/common/persistence/service/DiagnosisKeyService.java:48-76 | new store and count are those of SaveAll under the repository's rule; the store only grows, by the count; inserted plus the logged conflicting count equals the batch size; under the keyData-only rule keyData stays unique |
| KeyService.DiagnosisKeyService.GetDiagnosisKeys | common/persistence/src/main/java/app/coronawarn/server/common/persistence/service/DiagnosisKeyService.java:83-87 | ascending by submission timestamp; exactly the stored rows the validity filter accepts, each as often as it is stored |
| KeyService.DiagnosisKeyService.GetDiagnosisKeysWithMinTrl | common/persistence/src/main/java/app/coronawarn/server/common/persistence/service/DiagnosisKeyService.java:96-100 | fails with the illegal-argument message exactly for negative days; otherwise exactly the valid stored rows with risk level at least minTrl and timestamp at least the threshold, each as often as it is stored |
| KeyService.DiagnosisKeyService.ApplyRetentionPolicy | common/persistence/src/main/java/app/coronawarn/server/common/persistence/service/DiagnosisKeyService.java:110-116 | negative days: fails and the store is unchanged; otherwise deletes exactly the rows older than the threshold and keeps the rest in order; the logged count equals the number deleted; keyData uniqueness is kept |

## Left out

- Spring wiring (`@Component`, `@Timed`, `@Transactional`) and logging: each service call is one atomic step. Concurrent submitters and purges are not modelled.
- The repository's SQL (`exists`, `saveDoNothingOnConflict`, `findAll`, `findAllWithTrlGreaterThanOrEqual`, `countOlderThan`, `deleteOlderThan`) is not part of this model. Each is given the contract the service relies on.
- KeyRepository.DiagnosisKeyRepository.FindAllWithTrlGreaterThanOrEqual: the row order of this query is not known. The model returns rows in stored order and promises only which rows are returned.
- KeyRepository.DiagnosisKeyRepository.FindAll: rows with equal timestamps may come back from the database in any order. The model fixes one order and promises only sortedness and the same rows.
- `ValidDiagnosisKeyFilter` is not part of this model beyond being an element-wise filter.
- The real clock and the `java.time` calendar: replaced by `nowEpochSeconds`. The `DateTimeException` that `minusDays` throws outside the year range ±999999999 is not modelled. It needs a clock that far from the present.
- Java `int`/`long` overflow of the counters and of the `countOlderThan` result: not modelled. The inserted count never exceeds the batch size, which is an `int`.
- Null keys and null fields are not modelled: the types exclude them. In the source, a null element makes `getKeyData()` throw a `NullPointerException` at line 53. A null report type, submission type or visited-country set makes the calls at lines 60-62 throw one too, and the transaction then rolls back the whole batch.
- The documented `IllegalArgumentException` for a null element (line 44) is not thrown by any check in `saveDiagnosisKeys`. The actual failure is the `NullPointerException` above. The model has neither.
- The `DiagnosisKey` domain class (getters, setters, equals, hashCode, `isYoungerThanRetentionThreshold`) is not part of this model.
- The distribution-tree assembly, signing and remote certificate fetching exercised by `DigitalCertificatesStructureProviderTest` are not part of this model. They are cryptography and network I/O.
