/**
 The checks that read a mined receipt's own logs: was the ETH credited as funding, and did a payout
 reach the address it was meant for. Each is proved to decide what happened in the ledger.
 */
module Receipts {
  import opened Amounts
  import opened Options
  import opened PoolLedger
  import opened PoolInvariant
  import opened PoolHistory
  import opened PoolReentrancy
  import opened Selections

  /** A decoded log with its emitting address: a pool event, a forwarder's `Swept`, or anything else. */
  datatype ChainLog =
    | PoolLog(emitter: Address, log: Log)
    | SweptLog(emitter: Address, caller: Address, amount: nat)
    | OtherLog(emitter: Address)

  function Emitted(pool: Address, logs: seq<Log>): seq<ChainLog> {
    seq(|logs|, i requires 0 <= i < |logs| => PoolLog(pool, logs[i]))
  }

  // ---------------------------------------------------------------- funding

  datatype FundingVerdict =
    | Credited
    | AcceptedAsProceeds(amounts: seq<nat>)
    | NothingCredited
    | WronglyCredited(amounts: seq<nat>)

  predicate IsFundingBy(l: ChainLog, pool: Address, signer: Address) {
    l.emitter == pool && l.PoolLog? && l.log.ParticipantFunded? && l.log.participant == signer
  }

  predicate IsProceedsFrom(l: ChainLog, pool: Address, signer: Address) {
    l.emitter == pool && l.PoolLog? && l.log.EthReceivedViaCall? && l.log.sender == signer
  }

  function FundingAmounts(receipt: seq<ChainLog>, pool: Address, signer: Address): seq<nat> {
    if receipt == [] then []
    else
      var l := receipt[|receipt| - 1];
      FundingAmounts(receipt[..|receipt| - 1], pool, signer)
          + if IsFundingBy(l, pool, signer) then [l.log.amount] else []
  }

  function ProceedsAmounts(receipt: seq<ChainLog>, pool: Address, signer: Address): seq<nat> {
    if receipt == [] then []
    else
      var l := receipt[|receipt| - 1];
      ProceedsAmounts(receipt[..|receipt| - 1], pool, signer)
          + if IsProceedsFrom(l, pool, signer) then [l.log.amount] else []
  }

  /** `assertFundingWasCredited`: anything but `Credited` is fatal. */
  method CheckFundingWasCredited(receipt: seq<ChainLog>, pool: Address, signer: Address, amount: nat)
    returns (verdict: FundingVerdict)
    ensures verdict.Credited? <==> FundingAmounts(receipt, pool, signer) == [amount]
    ensures verdict.AcceptedAsProceeds? <==>
            FundingAmounts(receipt, pool, signer) != [amount] && ProceedsAmounts(receipt, pool, signer) != []
    ensures verdict.AcceptedAsProceeds? ==> verdict.amounts == ProceedsAmounts(receipt, pool, signer)
    ensures verdict.NothingCredited?
            <==> FundingAmounts(receipt, pool, signer) == [] && ProceedsAmounts(receipt, pool, signer) == []
    ensures verdict.WronglyCredited? ==> verdict.amounts == FundingAmounts(receipt, pool, signer)
  {
    var credited: seq<nat> := [];
    var acceptedAsProceeds: seq<nat> := [];
    var i := 0;
    while i < |receipt|
      invariant 0 <= i <= |receipt|
      invariant credited == FundingAmounts(receipt[..i], pool, signer)
      invariant acceptedAsProceeds == ProceedsAmounts(receipt[..i], pool, signer)
    {
      var l := receipt[i];
      assert receipt[..i + 1][..i] == receipt[..i];
      if l.emitter == pool && l.PoolLog? {
        if l.log.ParticipantFunded? && l.log.participant == signer {
          credited := credited + [l.log.amount];
        }
        if l.log.EthReceivedViaCall? && l.log.sender == signer {
          acceptedAsProceeds := acceptedAsProceeds + [l.log.amount];
        }
      }
      i := i + 1;
    }
    assert receipt[..i] == receipt;
    if |credited| == 1 && credited[0] == amount {
      assert credited == [amount];
      return Credited;
    }
    if |acceptedAsProceeds| > 0 { return AcceptedAsProceeds(acceptedAsProceeds); }
    if |credited| == 0 { return NothingCredited; }
    return WronglyCredited(credited);
  }

  ghost predicate OwnFunding(l: ChainLog, pool: Address, signer: Address) {
    l.PoolLog? && l.emitter == pool && l.log.ParticipantFunded? && l.log.participant == signer
  }

  ghost predicate OwnProceeds(l: ChainLog, pool: Address, signer: Address) {
    l.PoolLog? && l.emitter == pool && l.log.EthReceivedViaCall? && l.log.sender == signer
  }

  /** The amounts collected are those of the pool's own `ParticipantFunded` logs for the signer, in order. */
  ghost function Fundings(receipt: seq<ChainLog>, pool: Address, signer: Address): map<int, nat> {
    map i | 0 <= i < |receipt| && OwnFunding(receipt[i], pool, signer) :: receipt[i].log.amount
  }

  lemma {:induction false} FundingExactly(receipt: seq<ChainLog>, pool: Address, signer: Address)
    ensures InOrder(FundingAmounts(receipt, pool, signer), Fundings(receipt, pool, signer))
  {
    if receipt == [] {
      NothingInOrder(Fundings(receipt, pool, signer));
    } else {
      var n := |receipt| - 1;
      FundingExactly(receipt[..n], pool, signer);
      LastFunding(receipt, pool, signer);
      FundingsNext(receipt, pool, signer);
      hide FundingAmounts, Fundings, InOrder, Before;
      if OwnFunding(receipt[n], pool, signer) {
        InOrderNext(FundingAmounts(receipt[..n], pool, signer), Fundings(receipt[..n], pool, signer), n,
                    receipt[n].log.amount);
      } else {
        assert FundingAmounts(receipt[..n], pool, signer) + [] == FundingAmounts(receipt[..n], pool, signer);
      }
    }
  }

  lemma LastFunding(receipt: seq<ChainLog>, pool: Address, signer: Address)
    requires receipt != []
    ensures var n := |receipt| - 1;
            FundingAmounts(receipt, pool, signer)
            == FundingAmounts(receipt[..n], pool, signer)
               + if OwnFunding(receipt[n], pool, signer) then [receipt[n].log.amount] else []
  {
  }

  lemma FundingsNext(receipt: seq<ChainLog>, pool: Address, signer: Address)
    requires receipt != []
    ensures var n, before := |receipt| - 1, Fundings(receipt[..|receipt| - 1], pool, signer);
            && Before(before, n)
            && Fundings(receipt, pool, signer)
               == if OwnFunding(receipt[n], pool, signer) then before[n := receipt[n].log.amount] else before
  {
    var n := |receipt| - 1;
    assert forall i :: 0 <= i < n ==> receipt[..n][i] == receipt[i];
  }

  /** And those of its `EthReceivedViaCall` logs for the signer. */
  ghost function ProceedsLogged(receipt: seq<ChainLog>, pool: Address, signer: Address): map<int, nat> {
    map i | 0 <= i < |receipt| && OwnProceeds(receipt[i], pool, signer) :: receipt[i].log.amount
  }

  lemma {:induction false} ProceedsExactly(receipt: seq<ChainLog>, pool: Address, signer: Address)
    ensures InOrder(ProceedsAmounts(receipt, pool, signer), ProceedsLogged(receipt, pool, signer))
  {
    if receipt == [] {
      NothingInOrder(ProceedsLogged(receipt, pool, signer));
    } else {
      var n := |receipt| - 1;
      ProceedsExactly(receipt[..n], pool, signer);
      LastProceeds(receipt, pool, signer);
      ProceedsLoggedNext(receipt, pool, signer);
      hide ProceedsAmounts, ProceedsLogged, InOrder, Before;
      if OwnProceeds(receipt[n], pool, signer) {
        InOrderNext(ProceedsAmounts(receipt[..n], pool, signer), ProceedsLogged(receipt[..n], pool, signer), n,
                    receipt[n].log.amount);
      } else {
        assert ProceedsAmounts(receipt[..n], pool, signer) + [] == ProceedsAmounts(receipt[..n], pool, signer);
      }
    }
  }

  lemma LastProceeds(receipt: seq<ChainLog>, pool: Address, signer: Address)
    requires receipt != []
    ensures var n := |receipt| - 1;
            ProceedsAmounts(receipt, pool, signer)
            == ProceedsAmounts(receipt[..n], pool, signer)
               + if OwnProceeds(receipt[n], pool, signer) then [receipt[n].log.amount] else []
  {
  }

  lemma ProceedsLoggedNext(receipt: seq<ChainLog>, pool: Address, signer: Address)
    requires receipt != []
    ensures var n, before := |receipt| - 1, ProceedsLogged(receipt[..|receipt| - 1], pool, signer);
            && Before(before, n)
            && ProceedsLogged(receipt, pool, signer)
               == if OwnProceeds(receipt[n], pool, signer) then before[n := receipt[n].log.amount] else before
  {
    var n := |receipt| - 1;
    assert forall i :: 0 <= i < n ==> receipt[..n][i] == receipt[i];
  }

  /** The logged funding total of an account is the sum of the amounts the check collects. */
  lemma {:induction false} FundingAmountsAddUp(logs: seq<Log>, pool: Address, signer: Address)
    ensures Sum(FundingAmounts(Emitted(pool, logs), pool, signer)) == Logged(logs, FundedKind, Some(signer))
  {
    if logs == [] {
      assert Emitted(pool, logs) == [];
    } else {
      hide FundingAmounts, Emitted;
      var rest, l := logs[..|logs| - 1], logs[|logs| - 1];
      FundingAmountsAddUp(rest, pool, signer);
      LastAmount(rest, l, pool, signer);
      assert rest + [l] == logs;
      SumAppend(FundingAmounts(Emitted(pool, rest), pool, signer), AmountIn(l, FundedKind, Some(signer)));
    }
  }

  lemma SumAppend(s: seq<nat>, x: nat)
    ensures Sum(s + [x]) == Sum(s) + x
    ensures Sum(s + []) == Sum(s)
  {
    assert (s + [x])[..|s|] == s;
    assert s + [] == s;
  }

  /**
   One funding transaction, by either route, from any reachable ledger: the check passes exactly when
   the signer's active funding rose by the amount sent, which is exactly when the attempt was open.
   */
  lemma ReceiptTellsFundingFromProceeds(c: Config, p: Pool, tx: Tx, amount: nat)
    requires Inv(c, p) && amount > 0
    requires tx.action == Action.Fund(amount) || tx.action == Transfer(amount)
    requires Step(c, p, tx).Done?
    ensures var receipt := Emitted(c.pool, LogsOf(c, p, tx));
            && (FundingAmounts(receipt, c.pool, tx.caller) == [amount]
                <==> At(Next(c, p, tx).active, tx.caller) == At(p.active, tx.caller) + amount)
            && (FundingAmounts(receipt, c.pool, tx.caller) == [amount] <==> p.stage.Funding?)
            && (!p.stage.Funding? ==> ProceedsAmounts(receipt, c.pool, tx.caller) == [amount])
  {
    hide Inv, Remaining;
    var logs := LogsOf(c, p, tx);
    LastAmount([], logs[0], c.pool, tx.caller);
    assert [] + [logs[0]] == [logs[0]];
    if p.stage.Funding? {
      LastAmount([logs[0]], logs[1], c.pool, tx.caller);
      assert logs == [logs[0]] + [logs[1]];
    } else {
      assert logs == [logs[0]];
    }
  }

  lemma LastAmount(logs: seq<Log>, l: Log, pool: Address, signer: Address)
    ensures FundingAmounts(Emitted(pool, logs + [l]), pool, signer)
            == FundingAmounts(Emitted(pool, logs), pool, signer)
               + if l.ParticipantFunded? && l.participant == signer then [l.amount] else []
    ensures ProceedsAmounts(Emitted(pool, logs + [l]), pool, signer)
            == ProceedsAmounts(Emitted(pool, logs), pool, signer)
               + if l.EthReceivedViaCall? && l.sender == signer then [l.amount] else []
  {
    assert Emitted(pool, logs + [l])[..|logs|] == Emitted(pool, logs);
  }

  /**
   Any transaction at all, including one from a contract that makes nested calls: when the check
   passes, the signer's active funding and refund credits together rose by the amount.
   */
  lemma PassingCheckMeansCredited(c: Config, p: Pool, call: Call, signer: Address, amount: nat)
    requires Inv(c, p)
    requires FundingAmounts(Emitted(c.pool, Exec(c, p, false, call).1), c.pool, signer) == [amount]
    ensures var (q, logs) := Exec(c, p, false, call);
            At(q.active, signer) + Logged(logs, CreditedBackKind, Some(signer)) == At(p.active, signer) + amount
  {
    hide Inv, Logged, Exec, Flat, After, Trail;
    var (q, logs) := Exec(c, p, false, call);
    var txs := Flat(c, p, false, call);
    CallIsFlatRun(c, p, false, call);
    RunMoves(c, p, txs);
    FundingAmountsAddUp(logs, c.pool, signer);
    assert Sum([amount]) == amount by { assert [amount][..0] == []; }
    assert AccountMoved(p, After(c, p, txs), Trail(c, p, txs), signer);
  }

  // ---------------------------------------------------------------- payouts

  datatype Payout = Payout(recipient: Address, amount: nat)

  datatype PayoutVerdict = Reached(amount: nat) | NotOnePayout(count: nat) | Redirected(payout: Payout)

  /** Which of the two payout events a command is on. */
  datatype PayoutEvent = ClaimedEvent | RefundedEvent

  function PayoutIn(l: Log, event: PayoutEvent, participant: Address): seq<Payout> {
    match (event, l)
    case (ClaimedEvent, Claimed(a, r, v)) => if a == participant then [Payout(r, v)] else []
    case (RefundedEvent, Refunded(a, r, v)) => if a == participant then [Payout(r, v)] else []
    case _ => []
  }

  function Payouts(receipt: seq<ChainLog>, pool: Address, event: PayoutEvent, participant: Address): seq<Payout> {
    if receipt == [] then []
    else
      var l := receipt[|receipt| - 1];
      Payouts(receipt[..|receipt| - 1], pool, event, participant)
      + if l.emitter == pool && l.PoolLog? then PayoutIn(l.log, event, participant) else []
  }

  ghost predicate OwnPayout(l: ChainLog, pool: Address, event: PayoutEvent, participant: Address) {
    l.PoolLog? && l.emitter == pool && (if event.ClaimedEvent? then l.log.Claimed? else l.log.Refunded?)
    && l.log.participant == participant
  }

  /** The payouts collected are those of the pool's own logs of that event for the participant, in order. */
  ghost function PayoutsLogged(receipt: seq<ChainLog>, pool: Address, event: PayoutEvent,
                               participant: Address): map<int, Payout> {
    map i | 0 <= i < |receipt|
        && OwnPayout(receipt[i], pool, event, participant) :: Payout(receipt[i].log.recipient, receipt[i].log.amount)
  }

  lemma {:induction false} PayoutsExactly(receipt: seq<ChainLog>, pool: Address, event: PayoutEvent,
                                          participant: Address)
    ensures InOrder(Payouts(receipt, pool, event, participant), PayoutsLogged(receipt, pool, event, participant))
  {
    if receipt == [] {
      NothingInOrder(PayoutsLogged(receipt, pool, event, participant));
    } else {
      var n := |receipt| - 1;
      PayoutsExactly(receipt[..n], pool, event, participant);
      LastPayouts(receipt, pool, event, participant);
      PayoutsLoggedNext(receipt, pool, event, participant);
      hide Payouts, PayoutsLogged, InOrder, Before;
      if OwnPayout(receipt[n], pool, event, participant) {
        InOrderNext(Payouts(receipt[..n], pool, event, participant),
                    PayoutsLogged(receipt[..n], pool, event, participant), n,
                    Payout(receipt[n].log.recipient, receipt[n].log.amount));
      } else {
        assert Payouts(receipt[..n], pool, event, participant) + [] == Payouts(receipt[..n], pool, event, participant);
      }
    }
  }

  lemma LastPayouts(receipt: seq<ChainLog>, pool: Address, event: PayoutEvent, participant: Address)
    requires receipt != []
    ensures var n := |receipt| - 1;
            Payouts(receipt, pool, event, participant)
            == Payouts(receipt[..n], pool, event, participant)
               + if OwnPayout(receipt[n], pool, event,
                              participant) then [Payout(receipt[n].log.recipient, receipt[n].log.amount)] else []
  {
  }

  lemma PayoutsLoggedNext(receipt: seq<ChainLog>, pool: Address, event: PayoutEvent, participant: Address)
    requires receipt != []
    ensures var n, before := |receipt| - 1, PayoutsLogged(receipt[..|receipt| - 1], pool, event, participant);
            && Before(before, n)
            && PayoutsLogged(receipt, pool, event, participant)
               == if OwnPayout(receipt[n], pool, event,
                               participant) then before[n := Payout(receipt[n].log.recipient,
                                                                    receipt[n].log.amount)] else before
  {
    var n := |receipt| - 1;
    assert forall i :: 0 <= i < n ==> receipt[..n][i] == receipt[i];
  }

  /** `assertPayoutReachedRecipient`: anything but `Reached` is fatal; the amount is reported, not checked. */
  method CheckPayoutReachedRecipient(receipt: seq<ChainLog>, pool: Address, event: PayoutEvent,
                                     participant: Address, intended: Address) returns (verdict: PayoutVerdict)
    ensures verdict.NotOnePayout? <==> |Payouts(receipt, pool, event, participant)| != 1
    ensures verdict.NotOnePayout? ==> verdict.count == |Payouts(receipt, pool, event, participant)|
    ensures verdict.Reached? <==>
            Payouts(receipt, pool, event, participant)
            == [Payout(intended, if verdict.Reached? then verdict.amount else 0)]
    ensures verdict.Redirected? ==>
              Payouts(receipt, pool, event, participant) == [verdict.payout] && verdict.payout.recipient != intended
  {
    var payouts: seq<Payout> := [];
    var i := 0;
    while i < |receipt|
      invariant 0 <= i <= |receipt|
      invariant payouts == Payouts(receipt[..i], pool, event, participant)
    {
      assert receipt[..i + 1][..i] == receipt[..i];
      if receipt[i].emitter == pool && receipt[i].PoolLog? {
        payouts := payouts + PayoutIn(receipt[i].log, event, participant);
      }
      i := i + 1;
    }
    assert receipt[..i] == receipt;
    if |payouts| != 1 { return NotOnePayout(|payouts|); }
    assert payouts == [payouts[0]];
    if payouts[0].recipient != intended { return Redirected(payouts[0]); }
    return Reached(payouts[0].amount);
  }

  /** The pool's payouts among its own logs. */
  function LoggedPayouts(logs: seq<Log>, event: PayoutEvent, participant: Address): seq<Payout> {
    if logs == [] then []
    else LoggedPayouts(logs[..|logs| - 1], event, participant) + PayoutIn(logs[|logs| - 1], event, participant)
  }

  lemma {:induction false} PayoutsOfEmitted(logs: seq<Log>, pool: Address, event: PayoutEvent, participant: Address)
    ensures Payouts(Emitted(pool, logs), pool, event, participant) == LoggedPayouts(logs, event, participant)
  {
    if logs != [] {
      assert Emitted(pool, logs)[..|logs| - 1] == Emitted(pool, logs[..|logs| - 1]);
      PayoutsOfEmitted(logs[..|logs| - 1], pool, event, participant);
    }
  }

  lemma {:induction false} LoggedPayoutsConcat(first: seq<Log>, second: seq<Log>, event: PayoutEvent,
                                               participant: Address)
    ensures LoggedPayouts(first + second, event, participant)
            == LoggedPayouts(first, event, participant) + LoggedPayouts(second, event, participant)
    decreases |second|
  {
    if second == [] {
      assert first + second == first;
    } else {
      assert (first + second)[..|first + second| - 1] == first + second[..|second| - 1];
      LoggedPayoutsConcat(first, second[..|second| - 1], event, participant);
    }
  }

  lemma {:induction false} NoPayoutWithoutAPayoutLog(logs: seq<Log>, event: PayoutEvent, participant: Address)
    requires forall l :: l in logs ==> !l.Claimed? && !l.Refunded?
    ensures LoggedPayouts(logs, event, participant) == []
  {
    if logs != [] {
      NoPayoutWithoutAPayoutLog(logs[..|logs| - 1], event, participant);
    }
  }

  lemma {:induction false} ClosingLogsNoPayout(p: Pool, n: nat)
    requires n <= |p.participants|
    ensures forall l :: l in ClosedUpToLogs(p, n) ==> l.RefundCredited?
  {
    if n > 0 {
      ClosingLogsNoPayout(p, n - 1);
    }
  }

  lemma UnguardedLogsNoPayout(c: Config, p: Pool, tx: Tx)
    requires !Guarded(tx.action) && EffectOf(c, p, tx).Effect?
    ensures forall l :: l in EffectOf(c, p, tx).logs ==> !l.Claimed? && !l.Refunded?
  {
    hide ClosedUpToLogs, ClosedUpTo, AttemptError, Assigned, Remaining;
    if tx.action.Close? {
      ClosingLogsNoPayout(p, |p.participants|);
    }
  }

  /** Whatever a paid contract does while the lock is held, no payout is logged. */
  lemma {:induction false} NestedLogsNoPayout(c: Config, p: Pool, calls: seq<Call>)
    ensures forall l :: l in ExecAll(c, p, true, calls).1 ==> !l.Claimed? && !l.Refunded?
    decreases calls
  {
    hide EffectOf;
    if calls != [] {
      var tx := calls[0].tx;
      if !Guarded(tx.action) && EffectOf(c, p, tx).Effect? {
        UnguardedLogsNoPayout(c, p, tx);
      }
      NestedLogsNoPayout(c, Exec(c, p, true, calls[0]).0, calls[1..]);
    }
  }

  function PayoutEventOf(a: Action): PayoutEvent {
    if a.ClaimTo? then ClaimedEvent else RefundedEvent
  }

  /** What the caller was owed when the transaction ran. */
  function Owed(p: Pool, tx: Tx): nat {
    if tx.action.ClaimTo? then Claimable(p, tx.caller) else At(p.refundable, tx.caller)
  }

  /**
   A claim or refund that succeeds logs exactly one payout: the caller's whole entitlement as it
   stood, to the recipient the transaction named — even if the recipient calls back into the pool.
   So the check passes exactly when that recipient is the intended one.
   */
  lemma PayoutReceiptNamesTheRecipient(c: Config, p: Pool, call: Call, intended: Address)
    requires Inv(c, p) && (call.tx.action.ClaimTo? || call.tx.action.RefundTo?)
    requires Step(c, p, call.tx).Done?
    ensures var tx, event := call.tx, PayoutEventOf(call.tx.action);
            var payouts := Payouts(Emitted(c.pool, Exec(c, p, false, call).1), c.pool, event, tx.caller);
            && payouts == [Payout(tx.action.recipient, Owed(p, tx))]
            && Owed(p, tx) > 0
            && ((|payouts| == 1 && payouts[0].recipient == intended) <==> tx.action.recipient == intended)
  {
    hide Inv, EffectOf, Claimable, ExecAll, Payouts, Emitted, Owed;
    var tx, event := call.tx, PayoutEventOf(call.tx.action);
    StepKeepsInv(c, p, tx);
    PayoutEffectShape(c, p, tx);
    var e := EffectOf(c, p, tx);
    var (after, nested) := ExecAll(c, e.pool, true, call.inner);
    EffectKeepsInv(c, p, tx);
    CallsAreFlatRun(c, e.pool, true, call.inner);
    InvGross(c, after);
    assert Exec(c, p, false, call) == (after, nested + e.logs + [SnapshotOf(after)]);
    NestedLogsNoPayout(c, e.pool, call.inner);
    OnePayoutLogged(nested, e.logs[0], SnapshotOf(after), event, tx.caller);
    assert e.logs == [e.logs[0]];
    PayoutsOfEmitted(nested + e.logs + [SnapshotOf(after)], c.pool, event, tx.caller);
  }

  lemma PayoutEffectShape(c: Config, p: Pool, tx: Tx)
    requires (tx.action.ClaimTo? || tx.action.RefundTo?) && EffectOf(c, p, tx).Effect?
    ensures var e := EffectOf(c, p, tx);
            e.snapshot && |e.logs| == 1
            && PayoutIn(e.logs[0], PayoutEventOf(tx.action), tx.caller) == [Payout(tx.action.recipient, Owed(p, tx))]
    ensures Owed(p, tx) > 0
  {
    hide Claimable;
  }

  lemma OnePayoutLogged(nested: seq<Log>, paid: Log, snapshot: Log, event: PayoutEvent, participant: Address)
    requires forall l :: l in nested ==> !l.Claimed? && !l.Refunded?
    requires snapshot.AccountingSnapshot?
    ensures LoggedPayouts(nested + [paid] + [snapshot], event, participant) == PayoutIn(paid, event, participant)
  {
    NoPayoutWithoutAPayoutLog(nested, event, participant);
    LoggedPayoutsConcat(nested + [paid], [snapshot], event, participant);
    LoggedPayoutsConcat(nested, [paid], event, participant);
    LoggedPayoutsOne(paid, event, participant);
    LoggedPayoutsOne(snapshot, event, participant);
  }

  lemma LoggedPayoutsOne(l: Log, event: PayoutEvent, participant: Address)
    ensures LoggedPayouts([l], event, participant) == PayoutIn(l, event, participant)
  {
    assert [l][..0] == [];
  }
}
