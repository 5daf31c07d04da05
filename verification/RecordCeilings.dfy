/** How many records one surface admits for one visitor, network or conversation, and in all. */
module RecordCeilings {
  import opened Calendar
  import opened CounterRows
  import opened Ledger
  import opened LedgerHistory
  import opened Retention
  import opened BurstBound
  import P = PublicRecordAdmission

  // What each ceiling is

  /** The key that the ceiling counts on. */
  function KeyFor(category: P.Category, span: Window, surfaceId: string, bucket: string): string {
    match (category, span)
    case (Visitor, PerMinute) => "solution-intake:visitor:minute:" + surfaceId + ":" + bucket
    case (Visitor, _) => "solution-intake:visitor:hour:" + surfaceId + ":" + bucket
    case (Network, PerMinute) => "solution-intake:network:minute:" + surfaceId + ":" + bucket
    case (Network, _) => "solution-intake:network:hour:" + surfaceId + ":" + bucket
    case (Messaging, PerMinute) => "solution-intake:messaging:minute:" + surfaceId + ":" + bucket
    case (Messaging, _) => "solution-intake:messaging:hour:" + surfaceId + ":" + bucket
    case (Installation, _) => "solution-intake:surface:" + surfaceId
  }

  function Value(configured: Option<int>, default_: int): int {
    if configured.Some? then configured.value else default_
  }

  /** The limit: the configured one, or the deployment's. */
  function LimitFor(category: P.Category, span: Window, p: P.PartialLimits): int {
    match (category, span)
    case (Visitor, PerMinute) => Value(p.visitorPerMinute, 300)
    case (Visitor, _) => Value(p.visitorPerHour, 3_000)
    case (Network, PerMinute) => Value(p.networkPerMinute, 600)
    case (Network, _) => Value(p.networkPerHour, 6_000)
    case (Messaging, PerMinute) => Value(p.messagingPerMinute, 10)
    case (Messaging, _) => Value(p.messagingPerHour, 60)
    case (Installation, _) => Value(p.installationPerDay, 10_000)
  }

  /** A visitor, network or conversation counts by minute and hour, an installation by day. */
  predicate IsCeiling(category: P.Category, span: Window) {
    category.Installation? <==> span.PerDay?
  }

  /** The attempt is by this visitor, network or conversation; every attempt is for its installation. */
  predicate IsBy(buckets: P.Buckets, category: P.Category, bucket: string) {
    match category
    case Visitor => buckets.visitor == Some(bucket)
    case Network => buckets.network == Some(bucket)
    case Messaging => buckets.messaging == Some(bucket)
    case Installation => true
  }

  // The requests of an attempt

  lemma ValueIsWithin(configured: Option<int>, maximum: int)
    requires P.Within(configured, maximum).Some?
    ensures P.Within(configured, maximum).value == Value(configured, maximum)
  {
  }

  lemma LimitsAreThose(p: P.PartialLimits)
    requires P.AdmissionLimits(p).Some?
    ensures P.AdmissionLimits(p).value
         == P.Limits(LimitFor(P.Visitor, PerMinute, p), LimitFor(P.Visitor, PerHour, p), LimitFor(P.Network, PerMinute, p),
                     LimitFor(P.Network, PerHour, p), LimitFor(P.Messaging, PerMinute, p), LimitFor(P.Messaging, PerHour, p),
                     LimitFor(P.Installation, PerDay, p))
  {
    ValueIsWithin(p.visitorPerMinute, 300);
    ValueIsWithin(p.visitorPerHour, 3_000);
    ValueIsWithin(p.networkPerMinute, 600);
    ValueIsWithin(p.networkPerHour, 6_000);
    ValueIsWithin(p.messagingPerMinute, 10);
    ValueIsWithin(p.messagingPerHour, 60);
    ValueIsWithin(p.installationPerDay, 10_000);
  }

  /** The request is the ceiling of its category for this surface and these buckets. */
  ghost predicate IsRequest(r: P.CategoryRequest, surfaceId: string, buckets: P.Buckets, p: P.PartialLimits) {
    && IsCeiling(r.category, r.request.Span()) && r.request.Units() == 1
    && r.request.limit == LimitFor(r.category, r.request.Span(), p)
    && exists bucket :: IsBy(buckets, r.category, bucket) && r.request.key == KeyFor(r.category, r.request.Span(), surfaceId, bucket)
  }

  lemma KeysOf(category: P.Category, surfaceId: string, bucket: string)
    requires !category.Installation?
    ensures "solution-intake:" + P.CategoryText(category) + (":minute:" + surfaceId + ":" + bucket)
         == KeyFor(category, PerMinute, surfaceId, bucket)
    ensures "solution-intake:" + P.CategoryText(category) + (":hour:" + surfaceId + ":" + bucket)
         == KeyFor(category, PerHour, surfaceId, bucket)
  {
    match category
    case Visitor => VisitorKeys(surfaceId, bucket);
    case Network => NetworkKeys(surfaceId, bucket);
    case Messaging => MessagingKeys(surfaceId, bucket);
  }

  lemma VisitorKeys(surfaceId: string, bucket: string)
    ensures "solution-intake:" + P.CategoryText(P.Visitor) == "solution-intake:visitor"
    ensures "solution-intake:visitor" + (":minute:" + surfaceId + ":" + bucket) == KeyFor(P.Visitor, PerMinute, surfaceId, bucket)
    ensures "solution-intake:visitor" + (":hour:" + surfaceId + ":" + bucket) == KeyFor(P.Visitor, PerHour, surfaceId, bucket)
  {
    Joined("solution-intake:visitor", "solution-intake:visitor:minute:", "solution-intake:visitor:hour:", surfaceId, bucket);
  }

  lemma NetworkKeys(surfaceId: string, bucket: string)
    ensures "solution-intake:" + P.CategoryText(P.Network) == "solution-intake:network"
    ensures "solution-intake:network" + (":minute:" + surfaceId + ":" + bucket) == KeyFor(P.Network, PerMinute, surfaceId, bucket)
    ensures "solution-intake:network" + (":hour:" + surfaceId + ":" + bucket) == KeyFor(P.Network, PerHour, surfaceId, bucket)
  {
    Joined("solution-intake:network", "solution-intake:network:minute:", "solution-intake:network:hour:", surfaceId, bucket);
  }

  lemma MessagingKeys(surfaceId: string, bucket: string)
    ensures "solution-intake:" + P.CategoryText(P.Messaging) == "solution-intake:messaging"
    ensures "solution-intake:messaging" + (":minute:" + surfaceId + ":" + bucket) == KeyFor(P.Messaging, PerMinute, surfaceId, bucket)
    ensures "solution-intake:messaging" + (":hour:" + surfaceId + ":" + bucket) == KeyFor(P.Messaging, PerHour, surfaceId, bucket)
  {
    Joined("solution-intake:messaging", "solution-intake:messaging:minute:", "solution-intake:messaging:hour:", surfaceId, bucket);
  }

  lemma Joined(mark: string, minutes: string, hours: string, surfaceId: string, bucket: string)
    requires minutes == mark + ":minute:" && hours == mark + ":hour:"
    ensures mark + (":minute:" + surfaceId + ":" + bucket) == minutes + surfaceId + ":" + bucket
    ensures mark + (":hour:" + surfaceId + ":" + bucket) == hours + surfaceId + ":" + bucket
  {
  }

  lemma PairIs(category: P.Category, surfaceId: string, bucket: string, buckets: P.Buckets, p: P.PartialLimits, limits: P.Limits)
    requires !category.Installation? && IsBy(buckets, category, bucket)
    requires P.AdmissionLimits(p) == Some(limits)
    ensures var m, h := P.MinuteRequest(category, surfaceId, bucket, limits), P.HourRequest(category, surfaceId, bucket, limits);
            && P.Pair(category, surfaceId, buckets, limits) == [m, h]
            && IsRequest(m, surfaceId, buckets, p) && m.category == category && m.request.Span() == PerMinute
            && m.request.key == KeyFor(category, PerMinute, surfaceId, bucket)
            && IsRequest(h, surfaceId, buckets, p) && h.category == category && h.request.Span() == PerHour
            && h.request.key == KeyFor(category, PerHour, surfaceId, bucket)
  {
    LimitsAreThose(p);
    KeysOf(category, surfaceId, bucket);
  }

  lemma PairAre(category: P.Category, surfaceId: string, buckets: P.Buckets, p: P.PartialLimits, limits: P.Limits)
    requires !category.Installation? && P.AdmissionLimits(p) == Some(limits)
    ensures forall r <- P.Pair(category, surfaceId, buckets, limits) :: IsRequest(r, surfaceId, buckets, p)
  {
    if buckets.At(category).Some? {
      PairIs(category, surfaceId, buckets.At(category).value, buckets, p, limits);
    }
  }

  lemma InstallationIs(surfaceId: string, buckets: P.Buckets, p: P.PartialLimits, limits: P.Limits)
    requires P.AdmissionLimits(p) == Some(limits)
    ensures var r := P.InstallationRequest(surfaceId, limits);
            && IsRequest(r, surfaceId, buckets, p) && r.category == P.Installation && r.request.Span() == PerDay
            && r.request.key == KeyFor(P.Installation, PerDay, surfaceId, "")
  {
    LimitsAreThose(p);
    var r := P.InstallationRequest(surfaceId, limits);
    assert "solution-intake:" + P.CategoryText(P.Installation) + (":" + surfaceId) == "solution-intake:surface:" + surfaceId;
    assert IsBy(buckets, P.Installation, "");
  }

  /** Every request of an attempt is the ceiling of its category, with its own key and limit. */
  lemma RequestsAre(surfaceId: string, buckets: P.Buckets, p: P.PartialLimits, limits: P.Limits)
    requires P.AdmissionLimits(p) == Some(limits)
    ensures forall r <- P.CounterRequests(surfaceId, buckets, limits) :: IsRequest(r, surfaceId, buckets, p)
  {
    PairAre(P.Visitor, surfaceId, buckets, p, limits);
    PairAre(P.Network, surfaceId, buckets, p, limits);
    PairAre(P.Messaging, surfaceId, buckets, p, limits);
    InstallationIs(surfaceId, buckets, p, limits);
  }

  /** And every ceiling that applies is among them. */
  lemma CeilingIsAsked(surfaceId: string, buckets: P.Buckets, p: P.PartialLimits, limits: P.Limits,
                       category: P.Category, span: Window, bucket: string) returns (r: P.CategoryRequest)
    requires P.AdmissionLimits(p) == Some(limits) && IsCeiling(category, span) && IsBy(buckets, category, bucket)
    ensures r in P.CounterRequests(surfaceId, buckets, limits)
    ensures r.request.key == KeyFor(category, span, surfaceId, bucket) && r.request.Span() == span && r.request.Units() == 1
  {
    if category.Installation? {
      InstallationIs(surfaceId, buckets, p, limits);
      r := P.InstallationRequest(surfaceId, limits);
    } else {
      PairIs(category, surfaceId, bucket, buckets, p, limits);
      r := if span.PerMinute? then P.MinuteRequest(category, surfaceId, bucket, limits)
           else P.HourRequest(category, surfaceId, bucket, limits);
      assert r in P.Pair(category, surfaceId, buckets, limits);
    }
  }

  lemma KeyStartsSo(category: P.Category, span: Window, surfaceId: string, bucket: string)
    requires IsCeiling(category, span)
    ensures P.KeyStarts(KeyFor(category, span, surfaceId, bucket), category, span)
  {
    if category.Installation? {
      P.InstallationIsLabelled(surfaceId, P.DEFAULTS);
      InstallationKey(surfaceId, bucket);
    } else {
      P.PairIsLabelled(category, surfaceId, P.Buckets(Some(bucket), Some(bucket), Some(bucket)), P.DEFAULTS);
      PairKeys(category, surfaceId, bucket, P.Buckets(Some(bucket), Some(bucket), Some(bucket)));
    }
  }

  lemma InstallationKey(surfaceId: string, bucket: string)
    ensures P.InstallationRequest(surfaceId, P.DEFAULTS).request.key == KeyFor(P.Installation, PerDay, surfaceId, bucket)
  {
    assert "solution-intake:" + P.CategoryText(P.Installation) + (":" + surfaceId) == "solution-intake:surface:" + surfaceId;
  }

  lemma PairKeys(category: P.Category, surfaceId: string, bucket: string, buckets: P.Buckets)
    requires !category.Installation? && buckets.At(category) == Some(bucket)
    ensures var m, h := P.MinuteRequest(category, surfaceId, bucket, P.DEFAULTS), P.HourRequest(category, surfaceId, bucket, P.DEFAULTS);
            && m in P.Pair(category, surfaceId, buckets, P.DEFAULTS) && m.request.key == KeyFor(category, PerMinute, surfaceId, bucket)
            && h in P.Pair(category, surfaceId, buckets, P.DEFAULTS) && h.request.key == KeyFor(category, PerHour, surfaceId, bucket)
            && m.category == h.category == category && m.request.Span() == PerMinute && h.request.Span() == PerHour
  {
    KeysOf(category, surfaceId, bucket);
  }

  // A run of attempts

  datatype Record = Record(
    surfaceId: string, attempt: Attempt, buckets: P.Buckets, now: Time, configured: P.PartialLimits)

  predicate Reaches(r: Record) {
    P.Attributed(r.buckets, r.configured)
  }

  function RequestsOfRecord(r: Record): seq<CounterRequest>
    requires Reaches(r)
  {
    P.Plain(P.RequestsFor(r.surfaceId, r.buckets, r.configured))
  }

  function UsesOf(records: seq<Record>): (uses: seq<Use>)
    requires forall r <- records :: Reaches(r)
    ensures |uses| == |records|
    ensures forall i | 0 <= i < |records| :: uses[i] == UseOnce(RequestsOfRecord(records[i]), records[i].attempt, records[i].now)
  {
    seq(|records|, i requires 0 <= i < |records| => UseOnce(RequestsOfRecord(records[i]), records[i].attempt, records[i].now))
  }

  predicate NoMark(o: Option<string>) {
    o.None? || '@' !in o.value
  }

  /** No surface or bucket holds the mark between key and window. */
  predicate IsUnmarked(r: Record) {
    '@' !in r.surfaceId && NoMark(r.buckets.visitor) && NoMark(r.buckets.network) && NoMark(r.buckets.messaging)
  }

  predicate Counts(r: Record, e: Event, surfaceId: string, category: P.Category, bucket: string, lo: int, hi: int) {
    lo <= r.now < hi && e.outcome == Consumed && r.surfaceId == surfaceId && IsBy(r.buckets, category, bucket)
  }

  /** The records admitted for this surface and visitor, network or conversation at moments from `lo` to before `hi`. */
  function AdmittedRecords(records: seq<Record>, h: seq<Event>, surfaceId: string, category: P.Category, bucket: string, lo: int, hi: int): nat
    requires |records| == |h|
  {
    if records == [] then 0
    else (if Counts(records[0], h[0], surfaceId, category, bucket, lo, hi) then 1 else 0)
         + AdmittedRecords(records[1..], h[1..], surfaceId, category, bucket, lo, hi)
  }

  lemma KeyHasNoMark(category: P.Category, span: Window, surfaceId: string, bucket: string)
    requires '@' !in surfaceId && (category.Installation? || '@' !in bucket)
    ensures '@' !in KeyFor(category, span, surfaceId, bucket)
  {
  }

  lemma RequestIsPlain(r: P.CategoryRequest, record: Record, category: P.Category, span: Window, surfaceId: string, bucket: string, limit: int)
    requires IsRequest(r, record.surfaceId, record.buckets, record.configured) && IsUnmarked(record)
    requires IsCeiling(category, span) && LimitFor(category, span, record.configured) <= limit
    ensures '@' !in r.request.key && r.request.Units() >= 1
    ensures r.request.key == KeyFor(category, span, surfaceId, bucket) && r.request.Span() == span ==> r.request.limit <= limit
  {
    var own :| IsBy(record.buckets, r.category, own) && r.request.key == KeyFor(r.category, r.request.Span(), record.surfaceId, own);
    KeyHasNoMark(r.category, r.request.Span(), record.surfaceId, own);
    KeyStartsSo(r.category, r.request.Span(), record.surfaceId, own);
    KeyStartsSo(category, span, surfaceId, bucket);
    if r.request.key == KeyFor(category, span, surfaceId, bucket) && r.request.Span() == span {
      P.StartsDiffer(r.request.key, r.category, span, category, span);
    }
  }

  lemma RecordIsPlain(record: Record, category: P.Category, span: Window, surfaceId: string, bucket: string, limit: int)
    requires Reaches(record) && IsUnmarked(record) && IsCeiling(category, span)
    requires LimitFor(category, span, record.configured) <= limit
    ensures Plain(RequestsOfRecord(record), KeyFor(category, span, surfaceId, bucket), span, limit)
  {
    var limits := P.AdmissionLimits(record.configured).value;
    var requests := P.CounterRequests(record.surfaceId, record.buckets, limits);
    RequestsAre(record.surfaceId, record.buckets, record.configured, limits);
    forall i | 0 <= i < |requests|
      ensures '@' !in requests[i].request.key && requests[i].request.Units() >= 1
      ensures requests[i].request.key == KeyFor(category, span, surfaceId, bucket) && requests[i].request.Span() == span
              ==> requests[i].request.limit <= limit
    {
      assert requests[i] in requests;
      RequestIsPlain(requests[i], record, category, span, surfaceId, bucket, limit);
    }
  }

  lemma {:induction false} AskedOnce(requests: seq<CounterRequest>, r: CounterRequest)
    requires r in requests && forall q <- requests :: q.Units() >= 1
    ensures UnitsAsked(requests, r.key, r.Span()) >= 1
  {
    var n := |requests| - 1;
    UnitsAskedNotNegative(requests[..n], r.key, r.Span());
    if requests[n] != r {
      assert r in requests[..n];
      AskedOnce(requests[..n], r);
    }
  }

  /** An attempt that counts asks for a unit under the key of its ceiling. */
  lemma CountedIsAsked(record: Record, category: P.Category, span: Window, bucket: string)
    requires Reaches(record) && IsCeiling(category, span) && IsBy(record.buckets, category, bucket)
    requires forall q <- RequestsOfRecord(record) :: q.Units() >= 1
    ensures UnitsAsked(RequestsOfRecord(record), KeyFor(category, span, record.surfaceId, bucket), span) >= 1
  {
    var limits := P.AdmissionLimits(record.configured).value;
    var requests := P.CounterRequests(record.surfaceId, record.buckets, limits);
    var r := CeilingIsAsked(record.surfaceId, record.buckets, record.configured, limits, category, span, bucket);
    var i :| 0 <= i < |requests| && requests[i] == r;
    assert P.Plain(requests)[i] == r.request;
    AskedOnce(RequestsOfRecord(record), r.request);
  }

  /** The records are no more than the units admitted under the key. */
  lemma {:induction false} RecordsAreUnits(
    records: seq<Record>, h: seq<Event>, surfaceId: string, category: P.Category, span: Window, bucket: string, lo: int, hi: int)
    requires |records| == |h| && IsCeiling(category, span) && forall r <- records :: Reaches(r)
    requires forall r <- records :: forall q <- RequestsOfRecord(r) :: q.Units() >= 1
    ensures AdmittedRecords(records, h, surfaceId, category, bucket, lo, hi)
         <= AdmittedBetween(UsesOf(records), h, KeyFor(category, span, surfaceId, bucket), span, lo, hi)
    decreases |records|
  {
    if records != [] {
      var r := records[0];
      assert r in records;
      RecordsAreUnits(records[1..], h[1..], surfaceId, category, span, bucket, lo, hi);
      assert UsesOf(records)[1..] == UsesOf(records[1..]);
      UnitsAskedNotNegative(RequestsOfRecord(r), KeyFor(category, span, surfaceId, bucket), span);
      if r.surfaceId == surfaceId && IsBy(r.buckets, category, bucket) {
        CountedIsAsked(r, category, span, bucket);
      }
    }
  }

  /**
   * The ceilings hold over whole runs: in one aligned minute, hour or day a surface admits no more records of one
   * visitor, network or conversation, or in all, than the largest limit configured for them.
   */
  lemma CeilingHolds(records: seq<Record>, h: seq<Event>, surfaceId: string, category: P.Category, span: Window, bucket: string,
                     limit: int, u: Time, lo: int, hi: int)
    requires forall r <- records :: Reaches(r) && IsUnmarked(r) && LimitFor(category, span, r.configured) <= limit
    requires |records| == |h| && Replays(EMPTY, h) && Timed(UsesOf(records), h) && limit >= 0
    requires IsCeiling(category, span) && '@' !in surfaceId && '@' !in bucket
    requires hi == WindowEnd(span, u) && lo == hi - WindowMs(span)
    ensures AdmittedRecords(records, h, surfaceId, category, bucket, lo, hi) <= limit
  {
    var key, uses := KeyFor(category, span, surfaceId, bucket), UsesOf(records);
    KeyHasNoMark(category, span, surfaceId, bucket);
    forall i | 0 <= i < |records|
      ensures Plain(RequestsOf(uses[i]), key, span, limit)
    {
      assert records[i] in records;
      RecordIsPlain(records[i], category, span, surfaceId, bucket, limit);
    }
    WindowBound(uses, h, key, span, limit, u, lo, hi);
    UnitsOfRecords(records, key, span, limit);
    RecordsAreUnits(records, h, surfaceId, category, span, bucket, lo, hi);
  }

  lemma UnitsOfRecords(records: seq<Record>, key: string, span: Window, limit: int)
    requires forall r <- records :: Reaches(r)
    requires AllPlain(UsesOf(records), key, span, limit)
    ensures forall r <- records :: forall q <- RequestsOfRecord(r) :: q.Units() >= 1
  {
    forall i | 0 <= i < |records|
      ensures forall q <- RequestsOfRecord(records[i]) :: q.Units() >= 1
    {
      assert UsesOf(records)[i] in UsesOf(records);
    }
  }
}
