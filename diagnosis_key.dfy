/** The persisted diagnosis key record, the result type for the service's
    argument checks, and the sequence operations the repository queries use:
    an order-keeping filter and the ascending sort by submission timestamp. */
module DiagnosisKeys {

  /** Java `int`: the type of the service's day counts and risk levels. */
  type Int32 = x: int | -0x8000_0000 <= x < 0x8000_0000

  const INT_MAX: Int32 := 0x7fff_ffff

  datatype SubmissionType =
    | SUBMISSION_TYPE_PCR_TEST
    | SUBMISSION_TYPE_RAPID_TEST
    | SUBMISSION_TYPE_HOST_COLLECTED

  datatype ReportType =
    | UNKNOWN
    | CONFIRMED_TEST
    | CONFIRMED_CLINICAL_DIAGNOSIS
    | SELF_REPORT
    | RECURSIVE
    | REVOKED

  /** One stored row; `keyData` identifies the key, `submissionTimestamp`
      counts hours since the epoch (UTC). */
  datatype DiagnosisKey = DiagnosisKey(
    keyData: seq<bv8>,
    submissionType: SubmissionType,
    rollingStartIntervalNumber: int,
    rollingPeriod: int,
    transmissionRiskLevel: int,
    submissionTimestamp: int,
    consentToFederation: bool,
    originCountry: string,
    visitedCountries: set<string>,
    reportType: ReportType,
    daysSinceOnsetOfSymptoms: int)

  /** The service's only failure: an `IllegalArgumentException` and its message. */
  datatype Error = IllegalArgument(message: string)

  datatype Result<+T> = Success(value: T) | Failure(error: Error) {
    predicate IsFailure() { Failure? }

    function PropagateFailure<U>(): Result<U>
      requires Failure?
    {
      Failure(error)
    }

    function Extract(): T
      requires Success?
    {
      value
    }
  }

  /** The elements of `s` that satisfy `p`, in their original order. */
  function Filter<T(!new)>(s: seq<T>, p: T -> bool): (r: seq<T>)
    ensures |r| <= |s|
    ensures forall x :: x in r <==> x in s && p(x)
    ensures forall x :: multiset(r)[x] == if p(x) then multiset(s)[x] else 0
  {
    if s == [] then []
    else
      assert s == [s[0]] + s[1..];
      if p(s[0]) then [s[0]] + Filter(s[1..], p) else Filter(s[1..], p)
  }

  /** Filtering keeps every ordering the input already had. */
  lemma {:induction false} FilterKeepsOrder<T(!new)>(s: seq<T>, p: T -> bool, le: (T, T) -> bool)
    requires forall i, j :: 0 <= i < j < |s| ==> le(s[i], s[j])
    ensures forall i, j :: 0 <= i < j < |Filter(s, p)| ==> le(Filter(s, p)[i], Filter(s, p)[j])
  {
    if s != [] {
      FilterKeepsOrder(s[1..], p, le);
      var rest := Filter(s[1..], p);
      if p(s[0]) {
        forall j | 0 <= j < |rest| ensures le(s[0], rest[j]) {
          assert rest[j] in s[1..];
        }
      }
    }
  }

  /** Splitting a sequence by a predicate and its negation loses and adds nothing. */
  lemma {:induction false} FilterPartition<T(!new)>(s: seq<T>, p: T -> bool, q: T -> bool)
    requires forall x :: q(x) == !p(x)
    ensures multiset(Filter(s, p)) + multiset(Filter(s, q)) == multiset(s)
    ensures |Filter(s, p)| + |Filter(s, q)| == |s|
  {
    var kept, dropped := Filter(s, p), Filter(s, q);
    forall x ensures (multiset(kept) + multiset(dropped))[x] == multiset(s)[x] {
    }
    assert multiset(kept) + multiset(dropped) == multiset(s);
    assert |multiset(kept)| + |multiset(dropped)| == |multiset(s)|;
  }

  /** Filtering twice by the same predicate is filtering once. */
  lemma {:induction false} FilterIdempotent<T(!new)>(s: seq<T>, p: T -> bool)
    ensures Filter(Filter(s, p), p) == Filter(s, p)
  {
    if s != [] {
      FilterIdempotent(s[1..], p);
    }
  }

  ghost predicate SortedByTimestamp(s: seq<DiagnosisKey>)
  {
    forall i, j :: 0 <= i < j < |s| ==> s[i].submissionTimestamp <= s[j].submissionTimestamp
  }

  /** Places `k` in the sorted sequence `s` before the first later record. */
  function InsertByTimestamp(k: DiagnosisKey, s: seq<DiagnosisKey>): (r: seq<DiagnosisKey>)
    requires SortedByTimestamp(s)
    ensures SortedByTimestamp(r)
    ensures multiset(r) == multiset(s) + multiset{k}
    ensures |r| == |s| + 1
    ensures r[0] == k || (s != [] && r[0] == s[0])
  {
    if s == [] || k.submissionTimestamp <= s[0].submissionTimestamp then [k] + s
    else
      assert s == [s[0]] + s[1..];
      var rest := InsertByTimestamp(k, s[1..]);
      assert s[0].submissionTimestamp <= rest[0].submissionTimestamp;
      [s[0]] + rest
  }

  /** The repository's `Sort.by(ASC, "submissionTimestamp")`: ascending order,
      same records. */
  function SortByTimestamp(s: seq<DiagnosisKey>): (r: seq<DiagnosisKey>)
    ensures SortedByTimestamp(r)
    ensures multiset(r) == multiset(s)
    ensures |r| == |s|
  {
    if s == [] then []
    else
      assert s == [s[0]] + s[1..];
      InsertByTimestamp(s[0], SortByTimestamp(s[1..]))
  }
}
