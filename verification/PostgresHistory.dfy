/** Each call takes effect exactly once, between its first and its last statement, with the answer it returns. */
module PostgresHistory {
  import opened CounterRows
  import opened Ledger
  import opened LedgerHistory
  import opened SortedBatch
  import opened Postgres
  import opened PostgresInvariant
  import opened PostgresRefinement

  function DecisionAt(s: Sys, t: nat): Option<Outcome> {
    if t < |s.txs| then Decision(s.txs[t]) else None
  }

  /** An answer, once fixed, stays. */
  lemma AnswerStays(rows: map<Row, int>, receipts: map<Row, string>, tx: Tx)
    requires Running(tx.phase) && PhaseOk(rows, receipts, tx) && Decision(tx).Some?
    ensures Decision(Step(rows, receipts, tx)).Some?
    ensures SameAnswer(Decision(tx).value, Decision(Step(rows, receipts, tx)).value)
  {
  }

  /** What `events` say about transaction `t`, between states where its answer is `before` and `after`. */
  ghost predicate Reported(events: seq<Event>, t: nat, before: Option<Outcome>, s': Sys) {
    var mine, after := EventsOf(events, t), DecisionAt(s', t);
    if before.Some? then mine == [] && after.Some? && SameAnswer(before.value, after.value)
    else if after.None? then mine == []
    else |mine| == 1 && mine[0].t == t && mine[0].call == s'.txs[t].call && SameAnswer(mine[0].outcome, after.value)
  }

  lemma ActReports(c: Config, s: Sys, t: nat, u: nat)
    requires Inv(c, s) && Enabled(c, s, Act(t))
    ensures Reported(EventsAt(c, s, Act(t)), u, DecisionAt(s, u), After(c, s, Act(t)))
  {
    var tx, tx' := s.txs[t], Step(s.rows, s.receipts, s.txs[t]);
    var events := EventsAt(c, s, Act(t));
    assert TxOk(c, s.rows, s.receipts, s.horizon, tx);
    StepKeepsStatics(s.rows, s.receipts, tx);
    if Decision(tx).Some? {
      AnswerStays(s.rows, s.receipts, tx);
    }
    if u != t && u < |s.txs| && Decision(s.txs[u]).Some? {
      SameAnswerIsTransitive(Decision(s.txs[u]).value, Decision(s.txs[u]).value, Decision(s.txs[u]).value);
    }
    if Decision(tx').Some? {
      SameAnswerIsTransitive(Decision(tx').value, Decision(tx').value, Decision(tx').value);
    }
    assert events != [] ==> events[1..] == [];
  }

  lemma BeginReports(c: Config, s: Sys, call: Call, u: nat)
    requires Enabled(c, s, Begin(call))
    ensures Reported(EventsAt(c, s, Begin(call)), u, DecisionAt(s, u), After(c, s, Begin(call)))
  {
    var tx, events := Start(c, call), EventsAt(c, s, Begin(call));
    StartReports(|s.txs|, tx, u);
    if u < |s.txs| && Decision(s.txs[u]).Some? {
      SameAnswerIsTransitive(Decision(s.txs[u]).value, Decision(s.txs[u]).value, Decision(s.txs[u]).value);
    }
    if Decision(tx).Some? {
      SameAnswerIsTransitive(Decision(tx).value, Decision(tx).value, Decision(tx).value);
    }
  }

  lemma StartReports(t: nat, tx: Tx, u: nat)
    ensures EventsOf(Decides(t, None, tx), u)
         == if u == t && Decision(tx).Some? then [Event(t, tx.call, Decision(tx).value)] else []
  {
    if Decision(tx).Some? {
      assert Decides(t, None, tx)[1..] == [];
    }
  }

  /** An abort or a sweep changes no answer. */
  lemma QuietReports(c: Config, s: Sys, a: Action, u: nat)
    requires Enabled(c, s, a) && (a.Abort? || a.Sweep?)
    ensures Reported(EventsAt(c, s, a), u, DecisionAt(s, u), After(c, s, a))
  {
    if u < |s.txs| && Decision(s.txs[u]).Some? {
      SameAnswerIsTransitive(Decision(s.txs[u]).value, Decision(s.txs[u]).value, Decision(s.txs[u]).value);
    }
  }

  lemma ActionReports(c: Config, s: Sys, a: Action, u: nat)
    requires Inv(c, s) && Enabled(c, s, a)
    ensures Reported(EventsAt(c, s, a), u, DecisionAt(s, u), After(c, s, a))
  {
    match a
    case Begin(call) => BeginReports(c, s, call, u);
    case Act(t) => ActReports(c, s, t, u);
    case _ => QuietReports(c, s, a, u);
  }

  lemma ReportsCompose(g: seq<Event>, h: seq<Event>, t: nat, before: Option<Outcome>, mid: Sys, s': Sys)
    requires Reported(g, t, before, mid) && Reported(h, t, DecisionAt(mid, t), s')
    requires t < |mid.txs| ==> t < |s'.txs| && mid.txs[t].call == s'.txs[t].call
    ensures Reported(g + h, t, before, s')
  {
    EventsOfConcat(g, h, t);
    var m, a := DecisionAt(mid, t), DecisionAt(s', t);
    if m.Some? {
      var first := if before.Some? then before.value else EventsOf(g, t)[0].outcome;
      SameAnswerIsTransitive(first, m.value, a.value);
    }
  }

  lemma ActionKeepsCalls(c: Config, s: Sys, a: Action)
    requires Enabled(c, s, a)
    ensures |s.txs| <= |After(c, s, a).txs|
    ensures forall t | 0 <= t < |s.txs| :: After(c, s, a).txs[t].call == s.txs[t].call
  {
    if a.Act? {
      StepKeepsStatics(s.rows, s.receipts, s.txs[a.t]);
    }
  }

  lemma {:induction false} RunKeepsCalls(c: Config, s: Sys, actions: seq<Action>)
    requires Run(c, s, actions)
    ensures |s.txs| <= |EndOf(c, s, actions).txs|
    ensures forall t | 0 <= t < |s.txs| :: EndOf(c, s, actions).txs[t].call == s.txs[t].call
    decreases |actions|
  {
    if actions != [] {
      ActionKeepsCalls(c, s, actions[0]);
      RunKeepsCalls(c, After(c, s, actions[0]), actions[1..]);
    }
  }

  lemma {:induction false} RunReports(c: Config, s: Sys, actions: seq<Action>, t: nat)
    requires StrictTotal(c.before) && Inv(c, s) && Run(c, s, actions)
    ensures Reported(History(c, s, actions), t, DecisionAt(s, t), EndOf(c, s, actions))
    decreases |actions|
  {
    if actions == [] {
      if DecisionAt(s, t).Some? {
        SameAnswerIsTransitive(DecisionAt(s, t).value, DecisionAt(s, t).value, DecisionAt(s, t).value);
      }
    } else {
      var s' := After(c, s, actions[0]);
      ActionReports(c, s, actions[0], t);
      ActionKeepsInv(c, s, actions[0]);
      RunReports(c, s', actions[1..], t);
      RunKeepsCalls(c, s', actions[1..]);
      ReportsCompose(EventsAt(c, s, actions[0]), History(c, s', actions[1..]), t, DecisionAt(s, t), s',
                     EndOf(c, s, actions));
    }
  }

  /**
   * In any run, a call whose answer is fixed has exactly one event in the history, with its own
   * arguments and its own answer; a call that is still open or has failed has none.
   */
  lemma EachCallTakesEffectOnce(c: Config, actions: seq<Action>, t: nat)
    requires StrictTotal(c.before) && Run(c, INIT, actions) && t < |EndOf(c, INIT, actions).txs|
    ensures var tx, mine := EndOf(c, INIT, actions).txs[t], EventsOf(History(c, INIT, actions), t);
            if Decision(tx).None? then mine == []
            else |mine| == 1 && mine[0].call == tx.call && SameAnswer(mine[0].outcome, Decision(tx).value)
  {
    InitIsOk(c);
    RunReports(c, INIT, actions, t);
  }

  lemma {:induction false} RunSplits(c: Config, s: Sys, first: seq<Action>, then_: seq<Action>)
    requires Run(c, s, first + then_)
    ensures Run(c, s, first) && Run(c, EndOf(c, s, first), then_)
    ensures EndOf(c, s, first + then_) == EndOf(c, EndOf(c, s, first), then_)
    ensures History(c, s, first + then_) == History(c, s, first) + History(c, EndOf(c, s, first), then_)
    decreases |first|
  {
    if first == [] {
      assert first + then_ == then_;
    } else {
      var s' := After(c, s, first[0]);
      HeadAndTail(first, then_);
      RunSplits(c, s', first[1..], then_);
      Reassociate(EventsAt(c, s, first[0]), History(c, s', first[1..]), History(c, EndOf(c, s', first[1..]), then_));
    }
  }

  /**
   * The order of the history respects real time: if call `t` had its answer before call `u` began,
   * every event of `t` lies in the part of the history before, and every event of `u` in the part after.
   */
  lemma HistoryRespectsRealTime(c: Config, first: seq<Action>, then_: seq<Action>, t: nat, u: nat)
    requires StrictTotal(c.before) && Run(c, INIT, first + then_)
    requires Run(c, INIT, first) && DecisionAt(EndOf(c, INIT, first), t).Some?
    requires |EndOf(c, INIT, first).txs| <= u
    ensures var mid := EndOf(c, INIT, first);
            && Run(c, mid, then_)
            && History(c, INIT, first + then_) == History(c, INIT, first) + History(c, mid, then_)
            && EventsOf(History(c, mid, then_), t) == [] && EventsOf(History(c, INIT, first), u) == []
  {
    InitIsOk(c);
    RunSplits(c, INIT, first, then_);
    RunKeepsInv(c, INIT, first);
    RunReports(c, INIT, first, u);
    RunReports(c, EndOf(c, INIT, first), then_, t);
  }

  /**
   * A refused `consume` with a positive limit reports a use that its amount would push over the
   * limit, although the use is read by a second statement after the refusal.
   */
  lemma ReportedUseJustifiesDenial(c: Config, actions: seq<Action>, t: nat)
    requires StrictTotal(c.before) && Run(c, INIT, actions) && t < |EndOf(c, INIT, actions).txs|
    ensures var tx := EndOf(c, INIT, actions).txs[t];
            tx.call.Consume? && tx.phase.Done? && tx.phase.outcome.Counted? && !tx.phase.outcome.allowed
            && tx.phase.outcome.limit > 0
            ==> tx.phase.outcome.used + tx.call.entry.amount > tx.phase.outcome.limit
  {
    InitIsOk(c);
    RunKeepsInv(c, INIT, actions);
    var s := EndOf(c, INIT, actions);
    assert TxOk(c, s.rows, s.receipts, s.horizon, s.txs[t]);
  }
}
