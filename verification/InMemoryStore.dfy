/** The process-local store: two maps keyed by the text of a row, updated in place. */
module InMemoryStore {
  import opened Text
  import opened Calendar
  import opened CounterRows
  import opened Ledger

  /** The map from row texts holds, at every row's text, exactly what the map from rows holds. */
  ghost predicate Represents<T(!new)>(texts: map<string, T>, rows: map<Row, T>) {
    forall row: Row :: Agree(texts, rows, row)
  }

  ghost predicate Agree<T>(texts: map<string, T>, rows: map<Row, T>, row: Row) {
    var text := RowText(row);
    (text in texts <==> row in rows) && (row in rows ==> text in texts && texts[text] == rows[row])
  }

  lemma Store<T(!new)>(texts: map<string, T>, rows: map<Row, T>, row: Row, value: T)
    requires Represents(texts, rows)
    ensures Represents(texts[RowText(row) := value], rows[row := value])
  {
    var texts', rows' := texts[RowText(row) := value], rows[row := value];
    forall other: Row
      ensures Agree(texts', rows', other)
    {
      assert Agree(texts, rows, other);
      RowTextIdentity(row, other);
    }
  }

  /** `key.split(':')[0]`: the text before the first colon. */
  function BeforeColon(key: string): string {
    if key == "" || key[0] == ':' then "" else [key[0]] + BeforeColon(key[1..])
  }

  lemma {:induction false} BeforeColonOfJoin(head: string, tail: string)
    requires ':' !in head
    ensures BeforeColon(head + ":" + tail) == head
  {
    if head != "" {
      BeforeColonOfJoin(head[1..], tail);
      assert (head + ":" + tail)[1..] == head[1..] + ":" + tail;
    }
  }

  /** The text before the first colon of a stored key is its row's day. */
  lemma LooksOld(row: Row)
    ensures BeforeColon(RowText(row)) == row.day
  {
    BeforeColonOfJoin(row.day, row.key);
  }

  /** The stored keys a sweep leaves. */
  ghost predicate Survives<T>(texts: map<string, T>, left: map<string, T>, cutoff: DayText) {
    left == map text | text in texts && !Less(BeforeColon(text), cutoff) :: texts[text]
  }

  lemma SweepKeepsRows<T(!new)>(texts: map<string, T>, left: map<string, T>, rows: map<Row, T>, cutoff: DayText)
    requires Represents(texts, rows) && Survives(texts, left, cutoff)
    ensures Represents(left, Kept(rows, cutoff))
  {
    var kept := Kept(rows, cutoff);
    forall row: Row
      ensures Agree(left, kept, row)
    {
      assert Agree(texts, rows, row);
      LooksOld(row);
    }
  }

  /** `new Set(texts)`. */
  function MembersOf(texts: seq<string>): set<string> {
    set text <- texts
  }

  /** A list of texts has as many different members as places exactly when no two places agree. */
  lemma {:induction false} SizeTellsDuplicates(texts: seq<string>)
    ensures |MembersOf(texts)| <= |texts|
    ensures |MembersOf(texts)| == |texts| <==> forall i, j | 0 <= i < j < |texts| :: texts[i] != texts[j]
  {
    if texts != [] {
      var init, last := texts[..|texts| - 1], texts[|texts| - 1];
      SizeTellsDuplicates(init);
      assert texts == init + [last];
      assert MembersOf(texts) == MembersOf(init) + {last};
      if last in init {
        assert MembersOf(texts) == MembersOf(init);
        var i :| 0 <= i < |init| && init[i] == last;
        assert texts[i] == texts[|texts| - 1];
      } else {
        assert forall i | 0 <= i < |init| :: init[i] == texts[i];
      }
    }
  }

  function TextsOf(batch: seq<Entry>): (texts: seq<string>)
    ensures |texts| == |batch|
    ensures forall i | 0 <= i < |batch| :: texts[i] == RowText(batch[i].row)
  {
    seq(|batch|, i requires 0 <= i < |batch| => RowText(batch[i].row))
  }

  lemma DuplicateTexts(batch: seq<Entry>)
    ensures |MembersOf(TextsOf(batch))| == |batch| <==> DistinctRows(batch)
  {
    var texts := TextsOf(batch);
    SizeTellsDuplicates(texts);
    forall i, j | 0 <= i < j < |batch|
      ensures texts[i] == texts[j] <==> batch[i].row == batch[j].row
    {
      RowTextIdentity(batch[i].row, batch[j].row);
    }
  }

  class InMemoryDailyCounterStore {
    var used: map<string, int>
    var receipts: map<string, string>
    /** The state these maps stand for. */
    ghost var ledger: State

    ghost predicate Valid()
      reads this
    {
      Represents(used, ledger.used) && Represents(receipts, ledger.receipts)
    }

    constructor ()
      ensures Valid() && ledger == EMPTY
    {
      used, receipts, ledger := map[], map[], EMPTY;
    }

    function UsedAt(text: string): int
      reads this
    {
      if text in used then used[text] else 0
    }

    lemma UsedAtIsGet(row: Row)
      requires Valid()
      ensures UsedAt(RowText(row)) == Get(ledger.used, row)
    {
      assert Agree(used, ledger.used, row);
    }

    /** `#used.set`, at the text of a row. */
    method SetUsed(row: Row, total: int)
      requires Valid()
      modifies this`used, this`ledger
      ensures Valid()
      ensures ledger == old(ledger).(used := old(ledger).used[row := total])
    {
      Store(used, ledger.used, row, total);
      used := used[RowText(row) := total];
      ledger := ledger.(used := ledger.used[row := total]);
    }

    method Consume(request: CounterRequest, now: Time) returns (outcome: Outcome)
      requires Valid()
      modifies this
      ensures Valid()
      ensures ledger == Apply(old(ledger), ConsumeCall(request, now)).0
      ensures outcome == Apply(old(ledger), ConsumeCall(request, now)).1
    {
      outcome := Spend(EntryOf(request, now));
    }

    method Spend(entry: Entry) returns (outcome: Outcome)
      requires Valid()
      modifies this`used, this`ledger
      ensures Valid()
      ensures ledger == ApplyConsume(old(ledger), entry).0
      ensures outcome == ApplyConsume(old(ledger), entry).1
    {
      UsedAtIsGet(entry.row);
      var before := UsedAt(RowText(entry.row));
      if before + entry.amount > entry.limit {
        return Counted(false, before, entry.limit, entry.resetAt);
      }
      SetUsed(entry.row, before + entry.amount);
      return Counted(true, before + entry.amount, entry.limit, entry.resetAt);
    }

    /** The first loop of `#consumeAll`: collect every entry its ceiling refuses. */
    method FindExhausted(batch: seq<Entry>) returns (exhausted: seq<ExhaustedCounter>)
      requires Valid()
      ensures exhausted == ExhaustedBy(batch, ledger.used)
    {
      exhausted := [];
      for i := 0 to |batch|
        invariant exhausted == ExhaustedBy(batch[..i], ledger.used)
      {
        var entry := batch[i];
        UsedAtIsGet(entry.row);
        var before := UsedAt(RowText(entry.row));
        assert batch[..i + 1][..i] == batch[..i];
        if entry.limit <= 0 || before + entry.amount > entry.limit {
          exhausted := exhausted + [Report(entry)];
        }
      }
      assert batch[..|batch|] == batch;
    }

    /** The second loop: add every entry to its row. */
    method ChargeEach(batch: seq<Entry>)
      requires Valid()
      modifies this`used, this`ledger
      ensures Valid()
      ensures ledger == old(ledger).(used := Charge(batch, old(ledger).used))
    {
      for i := 0 to |batch|
        invariant Valid()
        invariant ledger == old(ledger).(used := Charge(batch[..i], old(ledger).used))
      {
        var entry := batch[i];
        UsedAtIsGet(entry.row);
        assert batch[..i + 1][..i] == batch[..i];
        SetUsed(entry.row, UsedAt(RowText(entry.row)) + entry.amount);
      }
      assert batch[..|batch|] == batch;
    }

    /** `#consumeAll`: charge the whole batch or nothing; shared rows are reported, not charged. */
    method Batch(requests: seq<CounterRequest>, now: Time)
      returns (exhausted: seq<ExhaustedCounter>, duplicate: bool)
      requires Valid()
      modifies this`used, this`ledger
      ensures Valid()
      ensures duplicate == !DistinctRows(BatchOf(requests, now))
      ensures exhausted == if duplicate then [] else ExhaustedBy(BatchOf(requests, now), old(ledger).used)
      ensures ledger == if duplicate || exhausted != [] then old(ledger)
                        else old(ledger).(used := Charge(BatchOf(requests, now), old(ledger).used))
    {
      exhausted := [];
      var batch := BatchOf(requests, now);
      DuplicateTexts(batch);
      duplicate := |MembersOf(TextsOf(batch))| != |batch|;
      if duplicate {
        return;
      }
      exhausted := FindExhausted(batch);
      if exhausted == [] {
        ChargeEach(batch);
      }
    }

    method ConsumeAll(requests: seq<CounterRequest>, now: Time) returns (outcome: Outcome)
      requires Valid()
      modifies this
      ensures Valid()
      ensures ledger == Apply(old(ledger), AllCall(requests, now)).0
      ensures outcome == Apply(old(ledger), AllCall(requests, now)).1
    {
      var exhausted, duplicate := Batch(requests, now);
      outcome := if duplicate then DuplicateRows else Spent(exhausted == []);
    }

    method ConsumeAllOnce(requests: seq<CounterRequest>, attempt: Attempt, now: Time) returns (outcome: Outcome)
      requires Valid()
      modifies this
      ensures Valid()
      ensures ledger == Apply(old(ledger), OnceCall(requests, attempt, now)).0
      ensures outcome == Apply(old(ledger), OnceCall(requests, attempt, now)).1
    {
      var receipt := ReceiptRow(attempt, now);
      var receiptKey := RowText(receipt);
      assert Agree(receipts, ledger.receipts, receipt);
      if receiptKey in receipts {
        return if receipts[receiptKey] == attempt.fingerprint then Replayed else Conflict;
      }
      var exhausted, duplicate := Batch(requests, now);
      if duplicate {
        return DuplicateRows;
      }
      if exhausted != [] {
        return Refused(exhausted);
      }
      Store(receipts, ledger.receipts, receipt, attempt.fingerprint);
      receipts := receipts[receiptKey := attempt.fingerprint];
      ledger := ledger.(receipts := ledger.receipts[receipt := attempt.fingerprint]);
      return Consumed;
    }

    /** Delete the keys that look older than the cutoff, one at a time, while walking the keys. */
    method Prune(now: Time) returns (removed: nat)
      requires Valid()
      requires FIRST_DAY + RETENTION_DAYS <= DayOf(now)
      modifies this
      ensures Valid()
      ensures ledger == Ledger.Prune(old(ledger), RetentionCutoff(now))
      ensures removed == |old(used)| - |used| + |old(receipts)| - |receipts|
    {
      var cutoff := RetentionCutoff(now);
      var fewer, gone := Sweep(used, cutoff);
      SweepKeepsRows(used, fewer, ledger.used, cutoff);
      var fewerReceipts, goneReceipts := Sweep(receipts, cutoff);
      SweepKeepsRows(receipts, fewerReceipts, ledger.receipts, cutoff);
      used, receipts := fewer, fewerReceipts;
      ledger := Ledger.Prune(ledger, cutoff);
      removed := gone + goneReceipts;
    }

    method Peek(key: string, now: Time) returns (n: int)
      requires Valid()
      ensures n == Ledger.Peek(ledger, key, now)
    {
      UsedAtIsGet(Row(DayKey(now), key));
      n := UsedAt(DayKey(now) + ":" + key);
    }
  }

  /** One deletion loop of the sweep. */
  method Sweep<T>(texts: map<string, T>, cutoff: DayText) returns (left: map<string, T>, removed: nat)
    ensures Survives(texts, left, cutoff)
    ensures removed == |texts| - |left|
  {
    left, removed := texts, 0;
    var unseen := texts.Keys;
    while unseen != {}
      invariant unseen <= left.Keys <= texts.Keys
      invariant forall text <- left :: left[text] == texts[text]
      invariant forall text <- texts ::
                  text in left <==> text in unseen || !Less(BeforeColon(text), cutoff)
      invariant removed == |texts| - |left|
      decreases unseen
    {
      var key :| key in unseen;
      if Less(BeforeColon(key), cutoff) {
        left := left - {key};
        removed := removed + 1;
      }
      unseen := unseen - {key};
    }
  }
}
