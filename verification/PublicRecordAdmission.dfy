/** Admission of one public record: the batch of ceilings it is charged to, and what a refusal tells. */
module PublicRecordAdmission {
  import opened Calendar
  import opened CounterRows
  import opened Ledger
  import opened InMemoryStore

  datatype Limits = Limits(
    visitorPerMinute: int, visitorPerHour: int, networkPerMinute: int, networkPerHour: int,
    messagingPerMinute: int, messagingPerHour: int, installationPerDay: int)

  datatype PartialLimits = PartialLimits(
    visitorPerMinute: Option<int>, visitorPerHour: Option<int>, networkPerMinute: Option<int>, networkPerHour: Option<int>,
    messagingPerMinute: Option<int>, messagingPerHour: Option<int>, installationPerDay: Option<int>)

  const DEFAULTS := Limits(300, 3_000, 600, 6_000, 10, 60, 10_000)

  datatype Category = Visitor | Network | Messaging | Installation

  datatype Buckets = Buckets(visitor: Option<string>, network: Option<string>, messaging: Option<string>) {
    function At(category: Category): Option<string> {
      match category
      case Visitor => visitor
      case Network => network
      case Messaging => messaging
      case Installation => None
    }
  }

  datatype CategoryRequest = CategoryRequest(request: CounterRequest, category: Category)

  datatype CategoryLimit = CategoryLimit(category: Category, limit: int, resetAt: int)

  datatype Result =
    | Admitted
    | Unavailable
    | IdempotencyConflict
    | QuotaExceeded(resetAt: int, limits: seq<CategoryLimit>)

  // The configured limits

  /** A configured value, or the default; an error when it is negative or above the default. */
  function Within(configured: Option<int>, maximum: int): (r: Option<int>)
  {
    var value := if configured.Some? then configured.value else maximum;
    if 0 <= value <= maximum then Some(value) else None
  }

  /** `publicRecordAdmissionLimits`; `None` stands for the error it throws. */
  function AdmissionLimits(p: PartialLimits): Option<Limits> {
    var a, b := Within(p.visitorPerMinute, DEFAULTS.visitorPerMinute), Within(p.visitorPerHour, DEFAULTS.visitorPerHour);
    var c, d := Within(p.networkPerMinute, DEFAULTS.networkPerMinute), Within(p.networkPerHour, DEFAULTS.networkPerHour);
    var e, f := Within(p.messagingPerMinute, DEFAULTS.messagingPerMinute), Within(p.messagingPerHour, DEFAULTS.messagingPerHour);
    var g := Within(p.installationPerDay, DEFAULTS.installationPerDay);
    if a.Some? && b.Some? && c.Some? && d.Some? && e.Some? && f.Some? && g.Some?
    then Some(Limits(a.value, b.value, c.value, d.value, e.value, f.value, g.value))
    else None
  }

  // The batch

  function CategoryText(category: Category): string {
    match category
    case Visitor => "visitor"
    case Network => "network"
    case Messaging => "messaging"
    case Installation => "surface"
  }

  function MinuteRequest(category: Category, surfaceId: string, bucket: string, limits: Limits): CategoryRequest {
    var limit := match category
      case Visitor => limits.visitorPerMinute
      case Network => limits.networkPerMinute
      case Messaging => limits.messagingPerMinute
      case Installation => limits.installationPerDay;
    CategoryRequest(
      CounterRequest("solution-intake:" + CategoryText(category) + (":minute:" + surfaceId + ":" + bucket),
                     limit, None, Some(PerMinute)), category)
  }

  function HourRequest(category: Category, surfaceId: string, bucket: string, limits: Limits): CategoryRequest {
    var limit := match category
      case Visitor => limits.visitorPerHour
      case Network => limits.networkPerHour
      case Messaging => limits.messagingPerHour
      case Installation => limits.installationPerDay;
    CategoryRequest(
      CounterRequest("solution-intake:" + CategoryText(category) + (":hour:" + surfaceId + ":" + bucket),
                     limit, None, Some(PerHour)), category)
  }

  function InstallationRequest(surfaceId: string, limits: Limits): CategoryRequest {
    CategoryRequest(
      CounterRequest("solution-intake:" + CategoryText(Installation) + (":" + surfaceId), limits.installationPerDay,
                     None, Some(PerDay)),
      Installation)
  }

  /** The two requests of a category that has a bucket. */
  function Pair(category: Category, surfaceId: string, buckets: Buckets, limits: Limits): seq<CategoryRequest> {
    match buckets.At(category)
    case Some(bucket) => [MinuteRequest(category, surfaceId, bucket, limits), HourRequest(category, surfaceId, bucket, limits)]
    case None => []
  }

  function CounterRequests(surfaceId: string, buckets: Buckets, limits: Limits): seq<CategoryRequest> {
    Pair(Visitor, surfaceId, buckets, limits) + Pair(Network, surfaceId, buckets, limits)
    + Pair(Messaging, surfaceId, buckets, limits) + [InstallationRequest(surfaceId, limits)]
  }

  /** `publicRecordCounterRequests`: push the two requests of each present category, then the installation's. */
  method PublicRecordCounterRequests(surfaceId: string, buckets: Buckets, limits: Limits)
    returns (requests: seq<CategoryRequest>)
    ensures requests == CounterRequests(surfaceId, buckets, limits)
  {
    requests := [];
    var categories := [Visitor, Network, Messaging];
    for i := 0 to 3
      invariant requests ==
                (if i > 0 then Pair(Visitor, surfaceId, buckets, limits) else [])
                + (if i > 1 then Pair(Network, surfaceId, buckets, limits) else [])
                + (if i > 2 then Pair(Messaging, surfaceId, buckets, limits) else [])
    {
      var category := categories[i];
      var bucket := buckets.At(category);
      if bucket.Some? {
        requests := requests + [MinuteRequest(category, surfaceId, bucket.value, limits),
                                HourRequest(category, surfaceId, bucket.value, limits)];
      }
    }
    requests := requests + [InstallationRequest(surfaceId, limits)];
  }

  function Plain(requests: seq<CategoryRequest>): (r: seq<CounterRequest>)
    ensures |r| == |requests|
    ensures forall i | 0 <= i < |r| :: r[i] == requests[i].request
  {
    seq(|requests|, i requires 0 <= i < |requests| => requests[i].request)
  }

  // Why the rows are distinct

  /** A request of the batch, recognizable by the start of its key alone. */
  predicate KeyStarts(key: string, category: Category, span: Window) {
    var mark := "solution-intake:" + CategoryText(category);
    var next := match span
      case PerMinute => ":m"
      case PerHour => ":h"
      case PerDay => ":";
    |key| >= |mark| + |next| && key[..|mark|] == mark && key[|mark|..|mark| + |next|] == next
  }

  predicate Labelled(r: CategoryRequest) {
    && KeyStarts(r.request.key, r.category, r.request.Span())
    && (r.category.Installation? <==> r.request.Span().PerDay?)
  }

  lemma StartsSurvive(key: string, tail: string, category: Category, span: Window)
    requires KeyStarts(key, category, span)
    ensures KeyStarts(key + tail, category, span)
  {
    var mark := "solution-intake:" + CategoryText(category);
    assert (key + tail)[..|mark|] == key[..|mark|];
    var n := |mark| + if span.PerDay? then 1 else 2;
    assert (key + tail)[|mark|..n] == key[|mark|..n];
  }

  /** Two starts cannot belong to one key. */
  lemma StartsDiffer(key: string, c: Category, v: Window, d: Category, w: Window)
    requires KeyStarts(key, c, v) && KeyStarts(key, d, w)
    requires (c.Installation? <==> v.PerDay?) && (d.Installation? <==> w.PerDay?)
    ensures c == d && v == w
  {
    assert key[16] == CategoryText(c)[0] && key[16] == CategoryText(d)[0];
    var n := 16 + |CategoryText(c)|;
    if v.PerMinute? {
      assert key[n..n + 2][1] == 'm';
    } else if v.PerHour? {
      assert key[n..n + 2][1] == 'h';
    }
  }

  lemma MarkedKeyStarts(mark: string, next: string, rest: string)
    ensures var key := mark + (next + rest);
            |key| >= |mark| + |next| && key[..|mark|] == mark && key[|mark|..|mark| + |next|] == next
  {
  }

  lemma PairIsLabelled(category: Category, surfaceId: string, buckets: Buckets, limits: Limits)
    requires !category.Installation?
    ensures forall r <- Pair(category, surfaceId, buckets, limits) ::
              Labelled(r) && r.request.Units() == 1 && r.category == category
  {
    if buckets.At(category).Some? {
      var mark, rest := "solution-intake:" + CategoryText(category), surfaceId + ":" + buckets.At(category).value;
      MarkedKeyStarts(mark, ":m", "inute:" + rest);
      assert ":minute:" + surfaceId + ":" + buckets.At(category).value == ":m" + ("inute:" + rest);
      MarkedKeyStarts(mark, ":h", "our:" + rest);
      assert ":hour:" + surfaceId + ":" + buckets.At(category).value == ":h" + ("our:" + rest);
    }
  }

  lemma InstallationIsLabelled(surfaceId: string, limits: Limits)
    ensures var r := InstallationRequest(surfaceId, limits);
            Labelled(r) && r.request.Units() == 1 && r.category == Installation
  {
    MarkedKeyStarts("solution-intake:" + CategoryText(Installation), ":", surfaceId);
  }

  lemma RequestsAreLabelled(surfaceId: string, buckets: Buckets, limits: Limits)
    ensures var requests := CounterRequests(surfaceId, buckets, limits);
            && (forall r <- requests :: Labelled(r) && r.request.Units() == 1)
            && (forall i, j | 0 <= i < j < |requests| :: !SameLabel(requests[i], requests[j]))
  {
    PairIsLabelled(Visitor, surfaceId, buckets, limits);
    PairIsLabelled(Network, surfaceId, buckets, limits);
    PairIsLabelled(Messaging, surfaceId, buckets, limits);
    InstallationIsLabelled(surfaceId, limits);
    PairLabelsDiffer(Visitor, surfaceId, buckets, limits);
    PairLabelsDiffer(Network, surfaceId, buckets, limits);
    PairLabelsDiffer(Messaging, surfaceId, buckets, limits);
    var v, n := Pair(Visitor, surfaceId, buckets, limits), Pair(Network, surfaceId, buckets, limits);
    var m, last := Pair(Messaging, surfaceId, buckets, limits), [InstallationRequest(surfaceId, limits)];
    LabelsJoin(v, n);
    LabelsJoin(v + n, m);
    LabelsJoin(v + n + m, last);
  }

  ghost predicate LabelsDiffer(requests: seq<CategoryRequest>) {
    forall i, j | 0 <= i < j < |requests| :: !SameLabel(requests[i], requests[j])
  }

  lemma PairLabelsDiffer(category: Category, surfaceId: string, buckets: Buckets, limits: Limits)
    ensures LabelsDiffer(Pair(category, surfaceId, buckets, limits))
  {
  }

  lemma LabelsJoin(a: seq<CategoryRequest>, b: seq<CategoryRequest>)
    requires LabelsDiffer(a) && LabelsDiffer(b)
    requires forall r <- a, q <- b :: r.category != q.category
    ensures LabelsDiffer(a + b)
  {
    forall i, j | 0 <= i < j < |a + b|
      ensures !SameLabel((a + b)[i], (a + b)[j])
    {
      if i < |a| <= j {
        assert (a + b)[i] in a && (a + b)[j] in b;
      }
    }
  }

  predicate SameLabel(r: CategoryRequest, q: CategoryRequest) {
    r.category == q.category && r.request.Span() == q.request.Span()
  }

  lemma RowsDiffer(r: CategoryRequest, q: CategoryRequest, now: Time)
    requires Labelled(r) && Labelled(q) && !SameLabel(r, q)
    ensures CounterRow(r.request, now) != CounterRow(q.request, now) && r.request.key != q.request.key
  {
    var key, other := CounterRow(r.request, now).key, CounterRow(q.request, now).key;
    StoredKeyStarts(r, now);
    StoredKeyStarts(q, now);
    if key == other {
      StartsDiffer(key, r.category, r.request.Span(), q.category, q.request.Span());
    }
    if r.request.key == q.request.key {
      StartsDiffer(r.request.key, r.category, r.request.Span(), q.category, q.request.Span());
    }
  }

  lemma Marked(key: string, window: string)
    ensures key + "@" + window == key + ("@" + window)
  {
  }

  lemma StoredKeyExtends(key: string, span: Window, now: Time) returns (tail: string)
    ensures StoredKey(key, span, now) == key + tail
  {
    match span
    case PerMinute =>
      var window := MinuteKey(now);
      Marked(key, window);
      tail := "@" + window;
    case PerHour =>
      var window := HourKey(now);
      Marked(key, window);
      tail := "@" + window;
    case PerDay =>
      tail := "";
  }

  lemma StoredKeyStarts(r: CategoryRequest, now: Time)
    requires Labelled(r)
    ensures KeyStarts(CounterRow(r.request, now).key, r.category, r.request.Span())
  {
    var tail := StoredKeyExtends(r.request.key, r.request.Span(), now);
    StartsSurvive(r.request.key, tail, r.category, r.request.Span());
  }

  /** For any surface and buckets the rows of the batch are pairwise distinct: the duplicate error cannot happen. */
  lemma RowsAreDistinct(surfaceId: string, buckets: Buckets, limits: Limits, now: Time)
    ensures DistinctRows(BatchOf(Plain(CounterRequests(surfaceId, buckets, limits)), now))
  {
    var requests := CounterRequests(surfaceId, buckets, limits);
    var batch := BatchOf(Plain(requests), now);
    RequestsAreLabelled(surfaceId, buckets, limits);
    forall i, j | 0 <= i < j < |batch|
      ensures batch[i].row != batch[j].row
    {
      assert requests[i] in requests && requests[j] in requests;
      RowsDiffer(requests[i], requests[j], now);
    }
  }

  // The answer

  /** `requests.find(...)?.category ?? 'installation'`. */
  function CategoryFor(requests: seq<CategoryRequest>, key: string): Category {
    if requests == [] then Installation
    else if requests[0].request.key == key then requests[0].category
    else CategoryFor(requests[1..], key)
  }

  function NameLimits(requests: seq<CategoryRequest>, exhausted: seq<ExhaustedCounter>): seq<CategoryLimit> {
    if exhausted == [] then []
    else
      var last := exhausted[|exhausted| - 1];
      NameLimits(requests, exhausted[..|exhausted| - 1])
      + [CategoryLimit(CategoryFor(requests, last.key), last.limit, last.resetAt)]
  }

  function LatestReset(limits: seq<CategoryLimit>): (at: int)
    requires limits != []
    ensures forall l <- limits :: l.resetAt <= at
    ensures exists l <- limits :: l.resetAt == at
  {
    if |limits| == 1 then limits[0].resetAt
    else
      var rest := LatestReset(limits[1..]);
      assert limits == [limits[0]] + limits[1..];
      if limits[0].resetAt > rest then limits[0].resetAt else rest
  }

  /** What the caller is told about the outcome of the atomic batch. */
  function Tell(requests: seq<CategoryRequest>, outcome: Outcome): Result {
    match outcome
    case Consumed => Admitted
    case Replayed => Admitted
    case Conflict => IdempotencyConflict
    case Refused(exhausted) =>
      var limits := NameLimits(requests, exhausted);
      if limits == [] then Unavailable else QuotaExceeded(LatestReset(limits), limits)
    case _ => Unavailable
  }

  /** A bucket that is present and not empty. */
  predicate Given(bucket: Option<string>) {
    bucket.Some? && bucket.value != ""
  }

  /** Whether the attempt reaches the store at all. */
  predicate Attributed(buckets: Buckets, configured: PartialLimits) {
    (Given(buckets.network) || Given(buckets.messaging)) && AdmissionLimits(configured).Some?
  }

  function RequestsFor(surfaceId: string, buckets: Buckets, configured: PartialLimits): seq<CategoryRequest>
    requires AdmissionLimits(configured).Some?
  {
    CounterRequests(surfaceId, buckets, AdmissionLimits(configured).value)
  }

  /** Admission against a store in state `l`: the new state and the answer. */
  function Admission(l: State, surfaceId: string, attempt: Attempt, buckets: Buckets, now: Time, configured: PartialLimits): (State, Result) {
    if !Attributed(buckets, configured) then (l, Unavailable)
    else
      var requests := RequestsFor(surfaceId, buckets, configured);
      var (l', outcome) := Apply(l, OnceCall(Plain(requests), attempt, now));
      (l', Tell(requests, outcome))
  }

  /** The receipt of an attempt on its day, with the fingerprint it was admitted for. */
  predicate HasReceipt(l: State, attempt: Attempt, now: Time, fingerprint: string) {
    ReceiptRow(attempt, now) in l.receipts && l.receipts[ReceiptRow(attempt, now)] == fingerprint
  }

  function RetryAnswer(same: bool): Result {
    if same then Admitted else IdempotencyConflict
  }

  /** An attempt that has a receipt changes nothing; it is admitted again if it is the same, else a conflict. */
  lemma RetryIsAnswered(l: State, surfaceId: string, attempt: Attempt, buckets: Buckets, now: Time, configured: PartialLimits, fingerprint: string)
    requires Attributed(buckets, configured) && HasReceipt(l, attempt, now, fingerprint)
    ensures Admission(l, surfaceId, attempt, buckets, now, configured)
         == (l, if fingerprint == attempt.fingerprint then Admitted else IdempotencyConflict)
  {
    var batch := RecordBatch(surfaceId, buckets, now, configured);
    AdmissionApplies(l, surfaceId, attempt, buckets, now, configured, batch);
  }

  lemma AdmissionApplies(l: State, surfaceId: string, attempt: Attempt, buckets: Buckets, now: Time, configured: PartialLimits, batch: seq<Entry>)
    requires Attributed(buckets, configured) && batch == RecordBatch(surfaceId, buckets, now, configured)
    ensures Admission(l, surfaceId, attempt, buckets, now, configured).0
         == ApplyOnce(l, batch, ReceiptRow(attempt, now), attempt.fingerprint).0
    ensures Admission(l, surfaceId, attempt, buckets, now, configured).1
         == Tell(RequestsFor(surfaceId, buckets, configured), ApplyOnce(l, batch, ReceiptRow(attempt, now), attempt.fingerprint).1)
  {
  }

  lemma AdmittedHasReceipt(l: State, surfaceId: string, attempt: Attempt, buckets: Buckets, now: Time, configured: PartialLimits)
    ensures var (l', result) := Admission(l, surfaceId, attempt, buckets, now, configured);
            result.Admitted? ==> HasReceipt(l', attempt, now, attempt.fingerprint)
  {
    if Attributed(buckets, configured) {
      AdmissionApplies(l, surfaceId, attempt, buckets, now, configured, RecordBatch(surfaceId, buckets, now, configured));
    }
  }

  /**
   * Two attempts under one key on one UTC day, the first of which is admitted: whatever the second one asks
   * for, it charges nothing, and it is admitted exactly when its fingerprint is that of the first.
   */
  lemma SecondAttempt(l: State, surfaceId: string, attempt: Attempt, buckets: Buckets, now: Time, configured: PartialLimits,
                      surfaceId': string, attempt': Attempt, buckets': Buckets, later: Time, configured': PartialLimits)
    requires Admission(l, surfaceId, attempt, buckets, now, configured).1 == Admitted
    requires attempt'.key == attempt.key && DayOf(later) == DayOf(now) && Attributed(buckets', configured')
    ensures var l' := Admission(l, surfaceId, attempt, buckets, now, configured).0;
            (Admission(l', surfaceId', attempt', buckets', later, configured')
             == (l', if attempt'.fingerprint == attempt.fingerprint then Admitted else IdempotencyConflict))
  {
    AdmittedHasReceipt(l, surfaceId, attempt, buckets, now, configured);
    DayKeyOrder(now, later);
    RetryIsAnswered(Admission(l, surfaceId, attempt, buckets, now, configured).0, surfaceId', attempt', buckets', later,
                    configured', attempt.fingerprint);
  }

  // When the store is not asked

  /** Absent, or between nothing and the deployment's ceiling. */
  predicate InBounds(configured: Option<int>, ceiling: int) {
    configured.None? || 0 <= configured.value <= ceiling
  }

  predicate Missing(bucket: Option<string>) {
    bucket.None? || |bucket.value| == 0
  }

  predicate AllInBounds(p: PartialLimits) {
    && InBounds(p.visitorPerMinute, 300) && InBounds(p.visitorPerHour, 3_000)
    && InBounds(p.networkPerMinute, 600) && InBounds(p.networkPerHour, 6_000)
    && InBounds(p.messagingPerMinute, 10) && InBounds(p.messagingPerHour, 60)
    && InBounds(p.installationPerDay, 10_000)
  }

  /** The attempt is unavailable exactly without a network or messaging bucket, or under a limit out of bounds; nothing changes then. */
  lemma UnavailableIff(l: State, surfaceId: string, attempt: Attempt, buckets: Buckets, now: Time, configured: PartialLimits)
    ensures Admission(l, surfaceId, attempt, buckets, now, configured).1 == Unavailable <==>
            (Missing(buckets.network) && Missing(buckets.messaging)) || !AllInBounds(configured)
    ensures Admission(l, surfaceId, attempt, buckets, now, configured).1 == Unavailable ==>
            Admission(l, surfaceId, attempt, buckets, now, configured).0 == l
  {
    AttributedIff(buckets, configured);
    if Attributed(buckets, configured) {
      if ReceiptRow(attempt, now) in l.receipts {
        RetryIsAnswered(l, surfaceId, attempt, buckets, now, configured, l.receipts[ReceiptRow(attempt, now)]);
      } else {
        RefusalNamesTheExceededCeilings(l, surfaceId, attempt, buckets, now, configured);
      }
    }
  }

  lemma AttributedIff(buckets: Buckets, configured: PartialLimits)
    ensures Attributed(buckets, configured) <==>
            !(Missing(buckets.network) && Missing(buckets.messaging)) && AllInBounds(configured)
  {
  }

  /** `admitPublicRecord`, against the in-memory store. */
  method AdmitPublicRecord(store: InMemoryDailyCounterStore, surfaceId: string, attempt: Attempt, buckets: Buckets,
                           now: Time, configured: PartialLimits)
    returns (result: Result)
    requires store.Valid()
    modifies store
    ensures store.Valid()
    ensures store.ledger == Admission(old(store.ledger), surfaceId, attempt, buckets, now, configured).0
    ensures result == Admission(old(store.ledger), surfaceId, attempt, buckets, now, configured).1
    ensures result.Admitted? ==> HasReceipt(store.ledger, attempt, now, attempt.fingerprint)
    ensures Attributed(buckets, configured) ==>
              forall fingerprint | HasReceipt(old(store.ledger), attempt, now, fingerprint) ::
                store.ledger == old(store.ledger) && result == RetryAnswer(fingerprint == attempt.fingerprint)
  {
    ghost var l := store.ledger;
    AdmittedHasReceipt(l, surfaceId, attempt, buckets, now, configured);
    if Attributed(buckets, configured) && ReceiptRow(attempt, now) in l.receipts {
      RetryIsAnswered(l, surfaceId, attempt, buckets, now, configured, l.receipts[ReceiptRow(attempt, now)]);
    }
    if !Given(buckets.network) && !Given(buckets.messaging) {
      return Unavailable;
    }
    var limits := AdmissionLimits(configured);
    if limits.None? {
      return Unavailable;
    }
    var requests := PublicRecordCounterRequests(surfaceId, buckets, limits.value);
    var outcome := store.ConsumeAllOnce(Plain(requests), attempt, now);
    result := Tell(requests, outcome);
  }

  // What the answer means

  /** The entries of the batch that their ceilings refuse, under the categories of their own requests. */
  function OverLimits(requests: seq<CategoryRequest>, batch: seq<Entry>, used: map<Row, int>): seq<CategoryLimit>
    requires |requests| == |batch|
    decreases |batch|
  {
    if batch == [] then []
    else
      var n := |batch| - 1;
      OverLimits(requests[..n], batch[..n], used)
      + if Over(batch[n], Get(used, batch[n].row))
        then [CategoryLimit(requests[n].category, batch[n].limit, batch[n].resetAt)] else []
  }

  /** The batch that a record attempt is charged to. */
  function RecordBatch(surfaceId: string, buckets: Buckets, now: Time, configured: PartialLimits): seq<Entry>
    requires AdmissionLimits(configured).Some?
  {
    BatchOf(Plain(RequestsFor(surfaceId, buckets, configured)), now)
  }

  lemma {:induction false} FoundByOwnKey(requests: seq<CategoryRequest>, i: nat)
    requires i < |requests|
    requires forall j | 0 <= j < i :: requests[j].request.key != requests[i].request.key
    ensures CategoryFor(requests, requests[i].request.key) == requests[i].category
  {
    if i > 0 {
      FoundByOwnKey(requests[1..], i - 1);
    }
  }

  ghost predicate KeysDiffer(requests: seq<CategoryRequest>) {
    forall i, j | 0 <= i < j < |requests| :: requests[i].request.key != requests[j].request.key
  }

  lemma NameOneMore(requests: seq<CategoryRequest>, exhausted: seq<ExhaustedCounter>, e: Entry)
    ensures NameLimits(requests, exhausted + [Report(e)])
            == NameLimits(requests, exhausted) + [CategoryLimit(CategoryFor(requests, e.key), e.limit, e.resetAt)]
  {
    assert (exhausted + [Report(e)])[..|exhausted|] == exhausted;
  }

  /** Naming by key gives every exhausted counter back its own category. */
  lemma {:induction false} NamesAreRight(all: seq<CategoryRequest>, batch: seq<Entry>, n: nat, used: map<Row, int>)
    requires KeysDiffer(all) && n <= |all| == |batch|
    requires forall i | 0 <= i < |batch| :: batch[i].key == all[i].request.key
    ensures NameLimits(all, ExhaustedBy(batch[..n], used)) == OverLimits(all[..n], batch[..n], used)
  {
    if n == 0 {
      assert batch[..0] == [];
    } else {
      NamesAreRight(all, batch, n - 1, used);
      NamesStep(all, batch, n, used);
    }
  }

  lemma NamesStep(all: seq<CategoryRequest>, batch: seq<Entry>, n: nat, used: map<Row, int>)
    requires KeysDiffer(all) && 0 < n <= |all| == |batch| && batch[n - 1].key == all[n - 1].request.key
    ensures NameLimits(all, ExhaustedBy(batch[..n - 1], used)) == OverLimits(all[..n - 1], batch[..n - 1], used) ==>
              NameLimits(all, ExhaustedBy(batch[..n], used)) == OverLimits(all[..n], batch[..n], used)
  {
    FoundByOwnKey(all, n - 1);
    NameOneMore(all, ExhaustedBy(batch[..n - 1], used), batch[n - 1]);
    ListsOneMore(all, batch, n, used);
  }

  lemma ListsOneMore(all: seq<CategoryRequest>, batch: seq<Entry>, n: nat, used: map<Row, int>)
    requires 0 < n <= |all| == |batch|
    ensures var e := batch[n - 1];
            var before, over := ExhaustedBy(batch[..n - 1], used), OverLimits(all[..n - 1], batch[..n - 1], used);
            && ExhaustedBy(batch[..n], used) == (if Over(e, Get(used, e.row)) then before + [Report(e)] else before)
            && OverLimits(all[..n], batch[..n], used)
               == if Over(e, Get(used, e.row)) then over + [CategoryLimit(all[n - 1].category, e.limit, e.resetAt)] else over
  {
    assert all[..n][..n - 1] == all[..n - 1] && batch[..n][..n - 1] == batch[..n - 1];
  }

  lemma KeysOfTheBatchDiffer(surfaceId: string, buckets: Buckets, limits: Limits, now: Time)
    ensures KeysDiffer(CounterRequests(surfaceId, buckets, limits))
  {
    var requests := CounterRequests(surfaceId, buckets, limits);
    RequestsAreLabelled(surfaceId, buckets, limits);
    forall i, j | 0 <= i < j < |requests|
      ensures requests[i].request.key != requests[j].request.key
    {
      assert requests[i] in requests && requests[j] in requests;
      RowsDiffer(requests[i], requests[j], now);
    }
  }

  lemma TellsRefusal(l: State, requests: seq<CategoryRequest>, batch: seq<Entry>, receipt: Row, fingerprint: string,
                     over: seq<CategoryLimit>)
    requires DistinctRows(batch) && receipt !in l.receipts
    ensures NameLimits(requests, ExhaustedBy(batch, l.used)) == over ==>
              Tell(requests, ApplyOnce(l, batch, receipt, fingerprint).1)
              == if over == [] then Admitted else QuotaExceeded(LatestReset(over), over)
  {
    NamesNothingFromNothing(requests, ExhaustedBy(batch, l.used));
  }

  lemma NamesNothingFromNothing(requests: seq<CategoryRequest>, exhausted: seq<ExhaustedCounter>)
    ensures NameLimits(requests, exhausted) == [] <==> exhausted == []
  {
  }

  lemma RefusalOfBatch(l: State, requests: seq<CategoryRequest>, batch: seq<Entry>, receipt: Row, fingerprint: string)
    requires |requests| == |batch| && DistinctRows(batch) && KeysDiffer(requests) && receipt !in l.receipts
    requires forall i | 0 <= i < |batch| :: batch[i].key == requests[i].request.key
    ensures var over := OverLimits(requests, batch, l.used);
            Tell(requests, ApplyOnce(l, batch, receipt, fingerprint).1)
            == if over == [] then Admitted else QuotaExceeded(LatestReset(over), over)
  {
    NamesAreRight(requests, batch, |requests|, l.used);
    assert requests[..|requests|] == requests && batch[..|batch|] == batch;
    TellsRefusal(l, requests, batch, receipt, fingerprint, OverLimits(requests, batch, l.used));
  }

  lemma AdmissionTells(l: State, surfaceId: string, attempt: Attempt, buckets: Buckets, now: Time, configured: PartialLimits,
                       requests: seq<CategoryRequest>, batch: seq<Entry>, receipt: Row)
    requires Attributed(buckets, configured) && requests == RequestsFor(surfaceId, buckets, configured)
    requires batch == RecordBatch(surfaceId, buckets, now, configured) && receipt == ReceiptRow(attempt, now)
    ensures Admission(l, surfaceId, attempt, buckets, now, configured).1
         == Tell(requests, ApplyOnce(l, batch, receipt, attempt.fingerprint).1)
  {
  }

  lemma RecordBatchFacts(surfaceId: string, buckets: Buckets, now: Time, configured: PartialLimits)
    returns (requests: seq<CategoryRequest>, batch: seq<Entry>)
    requires Attributed(buckets, configured)
    ensures requests == RequestsFor(surfaceId, buckets, configured)
    ensures batch == RecordBatch(surfaceId, buckets, now, configured)
    ensures |requests| == |batch| && DistinctRows(batch) && KeysDiffer(requests)
    ensures forall i | 0 <= i < |batch| :: batch[i].key == requests[i].request.key
  {
    var limits := AdmissionLimits(configured).value;
    requests := CounterRequests(surfaceId, buckets, limits);
    batch := BatchOf(Plain(requests), now);
    RowsAreDistinct(surfaceId, buckets, limits, now);
    KeysOfTheBatchDiffer(surfaceId, buckets, limits, now);
  }

  /**
   * An attempt without a receipt is admitted exactly when no ceiling of its batch is exceeded; a
   * refusal names exactly the exceeded ceilings, each under its own category and in order, and the
   * error for shared rows never occurs.
   */
  lemma RefusalNamesTheExceededCeilings(l: State, surfaceId: string, attempt: Attempt, buckets: Buckets, now: Time, configured: PartialLimits)
    requires Attributed(buckets, configured) && ReceiptRow(attempt, now) !in l.receipts
    ensures var over := OverLimits(RequestsFor(surfaceId, buckets, configured),
                                   RecordBatch(surfaceId, buckets, now, configured), l.used);
            Admission(l, surfaceId, attempt, buckets, now, configured).1
            == if over == [] then Admitted else QuotaExceeded(LatestReset(over), over)
  {
    var requests, batch := RecordBatchFacts(surfaceId, buckets, now, configured);
    RefusalOfBatch(l, requests, batch, ReceiptRow(attempt, now), attempt.fingerprint);
    AdmissionTells(l, surfaceId, attempt, buckets, now, configured, requests, batch, ReceiptRow(attempt, now));
  }

  /** Anything but a first admission leaves the store as it was; a first admission charges the whole batch. */
  lemma OnlyFirstAdmissionCharges(l: State, surfaceId: string, attempt: Attempt, buckets: Buckets, now: Time, configured: PartialLimits)
    ensures var (l', result) := Admission(l, surfaceId, attempt, buckets, now, configured);
            if result.Admitted? && ReceiptRow(attempt, now) !in l.receipts
            then l' == State(Charge(BatchOf(Plain(RequestsFor(surfaceId, buckets, configured)), now), l.used),
                             l.receipts[ReceiptRow(attempt, now) := attempt.fingerprint])
            else l' == l
  {
    if Attributed(buckets, configured) {
      var requests, batch := RecordBatchFacts(surfaceId, buckets, now, configured);
      AdmissionApplies(l, surfaceId, attempt, buckets, now, configured, batch);
      ChargesIffAdmitted(l, requests, batch, ReceiptRow(attempt, now), attempt.fingerprint);
    }
  }

  lemma ChargesIffAdmitted(l: State, requests: seq<CategoryRequest>, batch: seq<Entry>, receipt: Row, fingerprint: string)
    requires DistinctRows(batch)
    ensures var (l', outcome) := ApplyOnce(l, batch, receipt, fingerprint);
            l' == if Tell(requests, outcome).Admitted? && receipt !in l.receipts
                  then State(Charge(batch, l.used), l.receipts[receipt := fingerprint]) else l
  {
  }

  lemma {:induction false} OverLimitsResets(requests: seq<CategoryRequest>, batch: seq<Entry>, used: map<Row, int>, i: nat)
    requires i < |requests| == |batch| && Over(batch[i], Get(used, batch[i].row))
    ensures exists l <- OverLimits(requests, batch, used) :: l.resetAt == batch[i].resetAt
    decreases |batch|
  {
    var n := |batch| - 1;
    var init := OverLimits(requests[..n], batch[..n], used);
    if i < n {
      OverLimitsResets(requests[..n], batch[..n], used, i);
      var l :| l in init && l.resetAt == batch[i].resetAt;
      assert l in OverLimits(requests, batch, used);
    } else {
      assert CategoryLimit(requests[n].category, batch[n].limit, batch[n].resetAt) in OverLimits(requests, batch, used);
    }
  }

  /** By the moment a refusal names, every exceeded ceiling counts on a fresh row. */
  lemma ResetFreesEveryExceededCeiling(l: State, surfaceId: string, attempt: Attempt, buckets: Buckets, now: Time,
                                       configured: PartialLimits, i: nat, later: Time)
    requires Attributed(buckets, configured) && i < |RecordBatch(surfaceId, buckets, now, configured)|
    requires var e := RecordBatch(surfaceId, buckets, now, configured)[i]; Over(e, Get(l.used, e.row))
    requires var result := Admission(l, surfaceId, attempt, buckets, now, configured).1;
             result.QuotaExceeded? && result.resetAt <= later
    ensures CounterRow(RequestsFor(surfaceId, buckets, configured)[i].request, later)
            != RecordBatch(surfaceId, buckets, now, configured)[i].row
  {
    var requests, batch := RequestsFor(surfaceId, buckets, configured), RecordBatch(surfaceId, buckets, now, configured);
    RefusalNamesTheExceededCeilings(l, surfaceId, attempt, buckets, now, configured);
    OverLimitsResets(requests, batch, l.used, i);
    ResetIsFirstRowChange(requests[i].request, now);
  }
}
