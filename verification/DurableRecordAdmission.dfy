/** Admission of one public record over the durable store, whose refusals list counters in the order of their rows. */
module DurableRecordAdmission {
  import opened Calendar
  import opened CounterRows
  import opened Ledger
  import opened LedgerHistory
  import opened SortedBatch
  import opened PublicRecordAdmission
  import opened PostgresClient

  /** The same answer, up to the order in which exceeded ceilings are listed. */
  predicate SameResult(a: Result, b: Result) {
    if a.QuotaExceeded? && b.QuotaExceeded? then a.resetAt == b.resetAt && multiset(a.limits) == multiset(b.limits)
    else a == b
  }

  function Named(requests: seq<CategoryRequest>, e: ExhaustedCounter): CategoryLimit {
    CategoryLimit(CategoryFor(requests, e.key), e.limit, e.resetAt)
  }

  lemma {:induction false} NamesOfConcat(requests: seq<CategoryRequest>, a: seq<ExhaustedCounter>, b: seq<ExhaustedCounter>)
    ensures NameLimits(requests, a + b) == NameLimits(requests, a) + NameLimits(requests, b)
  {
    if b == [] {
      assert a + b == a;
    } else {
      var n := |b| - 1;
      NamesOfConcat(requests, a, b[..n]);
      assert (a + b)[..|a + b| - 1] == a + b[..n];
    }
  }

  /** Where a member stands, with what is around it. */
  lemma Around(xs: seq<ExhaustedCounter>, x: ExhaustedCounter) returns (before: seq<ExhaustedCounter>, after: seq<ExhaustedCounter>)
    requires x in xs
    ensures xs == before + [x] + after && multiset(xs) == multiset(before + after) + multiset{x}
  {
    var i :| 0 <= i < |xs| && xs[i] == x;
    before, after := xs[..i], xs[i + 1..];
    assert xs == before + [x] + after;
  }

  lemma NameOfOne(requests: seq<CategoryRequest>, e: ExhaustedCounter)
    ensures NameLimits(requests, [e]) == [Named(requests, e)]
  {
    assert [e][..0] == [];
  }

  lemma NamesAround(requests: seq<CategoryRequest>, a: seq<ExhaustedCounter>, x: ExhaustedCounter, b: seq<ExhaustedCounter>)
    ensures multiset(NameLimits(requests, a + [x] + b)) == multiset(NameLimits(requests, a + b)) + multiset{Named(requests, x)}
  {
    NamesOfConcat(requests, a + [x], b);
    NamesOfConcat(requests, a, [x]);
    NamesOfConcat(requests, a, b);
    NameOfOne(requests, x);
  }

  lemma Cancels<T>(a: multiset<T>, b: multiset<T>, x: T)
    requires a + multiset{x} == b + multiset{x}
    ensures a == b
  {
    forall y
      ensures a[y] == b[y]
    {
      assert (a + multiset{x})[y] == (b + multiset{x})[y];
    }
  }

  lemma EmptyPermutation(a: seq<ExhaustedCounter>, b: seq<ExhaustedCounter>)
    requires multiset(a) == multiset(b) && a == []
    ensures b == []
  {
    assert |multiset(b)| == |multiset(a)|;
  }

  /** Naming keeps multisets. */
  lemma {:induction false} NamesOfPermutation(requests: seq<CategoryRequest>, a: seq<ExhaustedCounter>, b: seq<ExhaustedCounter>)
    requires multiset(a) == multiset(b)
    ensures multiset(NameLimits(requests, a)) == multiset(NameLimits(requests, b))
    decreases |a|
  {
    if a == [] {
      EmptyPermutation(a, b);
    } else {
      var x := a[0];
      assert x in multiset(a) && x in multiset(b);
      var p, q := Around(a, x);
      var r, s := Around(b, x);
      Cancels(multiset(p + q), multiset(r + s), x);
      NamesOfPermutation(requests, p + q, r + s);
      NamesAround(requests, p, x, q);
      NamesAround(requests, r, x, s);
    }
  }

  lemma LatestIsBound(a: seq<CategoryLimit>, b: seq<CategoryLimit>)
    requires a != [] && b != [] && multiset(a) == multiset(b)
    ensures LatestReset(a) <= LatestReset(b)
  {
    var at := LatestReset(a);
    assert exists l <- a :: l.resetAt == at;
    var x :| x in a && x.resetAt == at;
    assert x in multiset(a) && x in multiset(b);
  }

  lemma LatestOfPermutation(a: seq<CategoryLimit>, b: seq<CategoryLimit>)
    requires a != [] && b != [] && multiset(a) == multiset(b)
    ensures LatestReset(a) == LatestReset(b)
  {
    LatestIsBound(a, b);
    LatestIsBound(b, a);
  }

  /** The caller is told the same about the same outcome. */
  lemma TellsTheSame(requests: seq<CategoryRequest>, o: Outcome, p: Outcome)
    requires SameAnswer(o, p)
    ensures SameResult(Tell(requests, o), Tell(requests, p))
  {
    if o.Refused? && p.Refused? {
      var a, b := NameLimits(requests, o.exhausted), NameLimits(requests, p.exhausted);
      NamesOfPermutation(requests, o.exhausted, p.exhausted);
      assert |multiset(a)| == |a| && |multiset(b)| == |b|;
      if a != [] {
        LatestOfPermutation(a, b);
      }
    }
  }

  /** What `consumeAllOnce` of the durable store leaves and answers for a batch. */
  function Once(before: Order, l: State, batch: seq<Entry>, receipt: Row, fingerprint: string): (State, Outcome) {
    if DistinctRows(Sort(before, batch)) then ApplyOnce(l, Sort(before, batch), receipt, fingerprint) else (l, DuplicateRows)
  }

  lemma OnceIsSequential(before: Order, l: State, surfaceId: string, attempt: Attempt, buckets: Buckets, now: Time, configured: PartialLimits)
    requires StrictTotal(before) && Attributed(buckets, configured)
    ensures var (l', outcome) := Once(before, l, RecordBatch(surfaceId, buckets, now, configured), ReceiptRow(attempt, now), attempt.fingerprint);
            && l' == Admission(l, surfaceId, attempt, buckets, now, configured).0
            && SameResult(Tell(RequestsFor(surfaceId, buckets, configured), outcome),
                          Admission(l, surfaceId, attempt, buckets, now, configured).1)
  {
    var requests, batch := RecordBatchFacts(surfaceId, buckets, now, configured);
    AdmissionApplies(l, surfaceId, attempt, buckets, now, configured, batch);
    SortKeepsDistinctness(before, batch);
    SortingKeepsOnce(before, l, batch, ReceiptRow(attempt, now), attempt.fingerprint);
    TellsTheSame(requests, Once(before, l, batch, ReceiptRow(attempt, now), attempt.fingerprint).1,
                 ApplyOnce(l, batch, ReceiptRow(attempt, now), attempt.fingerprint).1);
  }

  /** What a retry leaves and answers. */
  ghost predicate AnswersRetry(l: State, attempt: Attempt, now: Time, l': State, result: Result) {
    forall fingerprint | HasReceipt(l, attempt, now, fingerprint) ::
      l' == l && result == RetryAnswer(fingerprint == attempt.fingerprint)
  }

  lemma AnswerMeans(l: State, surfaceId: string, attempt: Attempt, buckets: Buckets, now: Time, configured: PartialLimits,
                    l': State, result: Result)
    requires l' == Admission(l, surfaceId, attempt, buckets, now, configured).0
    requires SameResult(result, Admission(l, surfaceId, attempt, buckets, now, configured).1)
    ensures result.Admitted? ==> HasReceipt(l', attempt, now, attempt.fingerprint)
    ensures Attributed(buckets, configured) ==> AnswersRetry(l, attempt, now, l', result)
  {
    AdmittedHasReceipt(l, surfaceId, attempt, buckets, now, configured);
    if Attributed(buckets, configured) && ReceiptRow(attempt, now) in l.receipts {
      RetryIsAnswered(l, surfaceId, attempt, buckets, now, configured, l.receipts[ReceiptRow(attempt, now)]);
    }
  }

  /** `admitPublicRecord`, against the durable store: the tables and, up to order, the answer of the sequential store. */
  method AdmitPublicRecord(store: PostgresDailyCounterStore, surfaceId: string, attempt: Attempt, buckets: Buckets,
                           now: Time, configured: PartialLimits)
    returns (result: Result)
    requires store.Idle() && StrictTotal(store.before)
    modifies store
    ensures store.Idle()
    ensures store.Tables() == Admission(old(store.Tables()), surfaceId, attempt, buckets, now, configured).0
    ensures SameResult(result, Admission(old(store.Tables()), surfaceId, attempt, buckets, now, configured).1)
    ensures result.Admitted? ==> HasReceipt(store.Tables(), attempt, now, attempt.fingerprint)
    ensures Attributed(buckets, configured) ==> AnswersRetry(old(store.Tables()), attempt, now, store.Tables(), result)
  {
    ghost var l := store.Tables();
    result := Ask(store, surfaceId, attempt, buckets, now, configured);
    AnswerMeans(l, surfaceId, attempt, buckets, now, configured, store.Tables(), result);
  }

  method Ask(store: PostgresDailyCounterStore, surfaceId: string, attempt: Attempt, buckets: Buckets, now: Time, configured: PartialLimits)
    returns (result: Result)
    requires store.Idle() && StrictTotal(store.before)
    modifies store
    ensures store.Idle()
    ensures store.Tables() == Admission(old(store.Tables()), surfaceId, attempt, buckets, now, configured).0
    ensures SameResult(result, Admission(old(store.Tables()), surfaceId, attempt, buckets, now, configured).1)
  {
    if !Given(buckets.network) && !Given(buckets.messaging) {
      return Unavailable;
    }
    var limits := AdmissionLimits(configured);
    if limits.None? {
      return Unavailable;
    }
    OnceIsSequential(store.before, store.Tables(), surfaceId, attempt, buckets, now, configured);
    var requests := PublicRecordCounterRequests(surfaceId, buckets, limits.value);
    var outcome, _ := store.ConsumeAllOnce(Plain(requests), attempt, now);
    result := Tell(requests, outcome);
  }
}
