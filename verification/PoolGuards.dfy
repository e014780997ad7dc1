/** Exactly when the pool's entry points succeed, in every ledger a run can reach. */
module PoolGuards {
  import opened Amounts
  import opened Options
  import opened PoolLedger
  import opened PoolInvariant

  // ---------------------------------------------------------------- predeposit and attempts

  /** The predeposit is 1 ETH from the operator, with keys and signatures of the right lengths and nonzero roots. */
  lemma CommitSucceedsExactly(c: Config, p: Pool, tx: Tx)
    requires Inv(c, p) && tx.action.Commit?
    ensures var Commit(value, data, accepted) := tx.action;
            Step(c, p, tx).Done? <==>
            && p.stage.Uninitialized? && tx.caller == c.operator && value == 1_000_000_000_000_000_000
            && |data.pubkey| == 48 && |data.predepositSignature| == 96 && |data.topUpSignature| == 96
            && data.predepositRoot != 0 && data.topUpRoot != 0 && accepted
    ensures Step(c, p, tx).Done? ==>
              Step(c, p, tx).pool == p.(stage := Predeposited, pubkey := tx.action.data.pubkey)
  {
    hide Inv;
    StepKeepsInv(c, p, tx);
  }

  /**
   The operator opens an attempt after the predeposit with any well-formed list of targets. The
   attempt is the next one, lasts for the window, has the listed participants and targets, and leaves
   balances, refunds and funding alone.
   */
  lemma OpeningSucceedsExactly(c: Config, p: Pool, tx: Tx)
    requires Inv(c, p) && tx.action.Open?
    ensures Step(c, p, tx).Done? <==>
            && p.stage.Predeposited? && tx.caller == c.operator
            && WellFormedAttempt(c, tx.action.addresses, tx.action.targets)
            && tx.now + c.window <= UINT256_MAX
    ensures Step(c, p, tx).Done? ==>
              var Open(addresses, targets) := tx.action;
              var q := Step(c, p, tx).pool;
              && q == p.(stage := Funding, attempt := p.attempt + 1, deadline := tx.now + c.window,
                         participants := addresses, target := q.target)
              && |addresses| == |targets|
              && (forall i :: 0 <= i < |addresses| ==> At(q.target, addresses[i]) == targets[i])
              && (forall a :: a !in addresses ==> At(q.target, a) == 0)
  {
    hide Inv, OpenEffect, WellFormedAttempt;
    StepKeepsInv(c, p, tx);
    OpenEffectExactly(c, p, tx.caller, tx.now, tx.action.addresses, tx.action.targets);
  }

  lemma OpenEffectExactly(c: Config, p: Pool, caller: Address, now: nat, addresses: seq<Address>, targets: seq<nat>)
    requires Inv(c, p)
    ensures var e := OpenEffect(c, p, caller, now, addresses, targets);
            && (e.Effect? <==> (p.stage.Predeposited? && caller == c.operator && now + c.window <= UINT256_MAX
                                && WellFormedAttempt(c, addresses, targets)))
            && (e.Effect? ==>
                  && e.pool == p.(stage := Funding, attempt := p.attempt + 1, deadline := now + c.window,
                                  participants := addresses, target := e.pool.target)
                  && |addresses| == |targets|
                  && (forall i :: 0 <= i < |addresses| ==> At(e.pool.target, addresses[i]) == targets[i])
                  && (forall a :: a !in addresses ==> At(e.pool.target, a) == 0))
  {
    hide Inv, AllZero, Assigned, AttemptError, WellFormedAttempt;
    if p.stage.Predeposited? {
      NothingListed(c, p);
      AttemptAcceptedExactly(c, p, addresses, targets);
      if WellFormedAttempt(c, addresses, targets) {
        assert p.participants + addresses == addresses;
        WrittenTargets(c, p.target, addresses, targets);
      }
    }
  }

  lemma NothingListed(c: Config, p: Pool)
    requires Inv(c, p) && p.stage.Predeposited?
    ensures p.participants == [] && AllZero(p.target)
  {
    hide Total;
  }

  lemma WrittenTargets(c: Config, m: map<Address, nat>, addresses: seq<Address>, targets: seq<nat>)
    requires WellFormedAttempt(c, addresses, targets) && AllZero(m)
    ensures |addresses| == |targets|
    ensures var written := Assigned(m, addresses, targets, |addresses|);
            && (forall i :: 0 <= i < |addresses| ==> At(written, addresses[i]) == targets[i])
            && (forall a :: a !in addresses ==> At(written, a) == 0)
  {
    hide Total, Sum, Assigned;
    assert addresses[..|addresses|] == addresses;
    AssignedTargets(m, addresses, targets, |addresses|);
  }

  /**
   Anyone closes an attempt once its deadline is past; all its funding becomes refund claims and
   nothing of it is left.
   */
  lemma ClosingSucceedsExactly(c: Config, p: Pool, tx: Tx)
    requires Inv(c, p) && tx.action.Close?
    ensures Step(c, p, tx).Done? <==> p.stage.Funding? && tx.now > p.deadline
    ensures Step(c, p, tx).Done? ==>
              var q := Step(c, p, tx).pool;
              && q == p.(stage := Predeposited, deadline := 0, participants := [], totalActive := 0,
                         totalRefundable := p.totalRefundable + p.totalActive,
                         target := q.target, active := q.active, refundable := q.refundable)
              && (forall a :: At(q.refundable, a) == At(p.refundable, a) + At(p.active, a))
              && (forall a :: At(q.target, a) == 0 && At(q.active, a) == 0)
  {
    hide Total, ClosedUpTo, ClosedUpToLogs, Agreement;
    StepKeepsInv(c, p, tx);
    if Step(c, p, tx).Done? {
      CloseKeepsInv(c, p, tx.now);
      ClosingTouches(p, |p.participants|);
      ClosingMoves(p, |p.participants|);
    }
  }

  // ---------------------------------------------------------------- funding and top-up

  /** The remaining allocation is what active funding leaves of the target, the operator's less the predeposit. */
  lemma RemainingIsTheRest(c: Config, p: Pool, a: Address)
    requires Inv(c, p)
    ensures a !in p.participants ==> Remaining(c, p, a) == 0
    ensures a in p.participants ==>
              At(p.target, a)
              == At(p.active, a) + Remaining(c, p, a) + if a == c.operator then 1_000_000_000_000_000_000 else 0
  {
    hide Total;
    if p.stage.Funding? || p.stage.ToppedUp? {
      assert At(p.active, a) <= Cap(c, p.target, a);
      assert a in p.participants <==> At(p.target, a) > 0;
    }
  }

  /**
   By either route funding is credited exactly when the attempt is open and the amount fits the
   caller's remaining allocation; who is no participant has none.
   */
  lemma FundingSucceedsExactly(c: Config, p: Pool, tx: Tx, amount: nat)
    requires Inv(c, p) && !p.stage.ToppedUp?
    requires tx.action == Action.Fund(amount) || tx.action == Transfer(amount)
    ensures Step(c, p, tx).Done?
            <==> p.stage.Funding? && tx.now <= p.deadline && 0 < amount <= Remaining(c, p, tx.caller)
    ensures Step(c, p, tx).Done? ==>
              Step(c, p, tx).pool
              == p.(balance := p.balance + amount, totalActive := p.totalActive + amount,
                    active := p.active[tx.caller := At(p.active, tx.caller) + amount])
    ensures Step(c, p, tx).Done? ==>
              var q := Step(c, p, tx).pool;
              Remaining(c, q, tx.caller) == Remaining(c, p, tx.caller) - amount
              && forall a :: a != tx.caller ==> Remaining(c, q, a) == Remaining(c, p, a)
  {
    hide Total;
    StepKeepsInv(c, p, tx);
    assert p.stage.Funding? ==> (tx.caller in p.participants <==> At(p.target, tx.caller) > 0);
    assert p.stage.Funding? ==> At(p.active, tx.caller) <= Cap(c, p.target, tx.caller);
  }

  /** Once topped up, `fund()` is closed and a plain transfer adds to the balance and nothing else, from anybody. */
  lemma ToppedUpTakesTransfersOnly(c: Config, p: Pool, tx: Tx, amount: nat)
    requires p.stage.ToppedUp? && (tx.action == Action.Fund(amount) || tx.action == Transfer(amount))
    ensures Step(c, p, tx)
            == if tx.action.Fund? then Reverted(InvalidState)
               else Done(p.(balance := p.balance + amount), [EthReceivedViaCall(tx.caller, amount)])
  {
    hide Remaining, SnapshotOf;
    match tx.action case Fund(_) => case Transfer(_) =>
  }

  /**
   Of the top-up's seven checks four decide: the caller, the deadline, and that nobody has anything
   left to fund. The balance check, the flag and the credit total can never fail.
   */
  lemma TopUpSucceedsExactly(c: Config, p: Pool, tx: Tx)
    requires Inv(c, p) && tx.action.TopUp?
    ensures Step(c, p, tx).Done? <==>
            p.stage.Funding? && tx.caller == c.operator && tx.now <= p.deadline && tx.action.accepted
            && forall a :: Remaining(c, p, a) == 0
    ensures Step(c, p, tx).Done? ==>
              var q := Step(c, p, tx).pool;
              && p.balance >= 31_000_000_000_000_000_000
              && q == p.(stage := ToppedUp, topUpSubmitted := true, balance := p.balance - 31_000_000_000_000_000_000,
                         credited := q.credited, totalCredited := 32_000_000_000_000_000_000)
              && forall a :: At(q.credited, a) == At(p.target, a)
  {
    hide Total, Remaining, CreditsUpTo, CreditTotalUpTo;
    StepKeepsInv(c, p, tx);
    if p.stage.Funding? {
      FullExactlyWhenNothingRemains(c, p);
      CreditedInFull(c, p);
    }
  }

  // ---------------------------------------------------------------- exit and payouts

  /**
   The operator may request an exit once the validator is committed, a participant once the pool is
   topped up, and nobody else ever. A request records the attempt and touches nothing else: the fee
   and the excess come out of what the caller sent.
   */
  lemma ExitSucceedsExactly(c: Config, p: Pool, tx: Tx)
    requires Inv(c, p) && tx.action.RequestExit?
    ensures var RequestExit(value, maxFee, fee, accepted, paid) := tx.action;
            Step(c, p, tx).Done? <==>
            && (if tx.caller == c.operator then !p.stage.Uninitialized?
                else p.stage.ToppedUp? && tx.caller in p.participants)
            && fee.Some? && fee.value <= maxFee && fee.value <= value
            && accepted && (value == fee.value || paid)
    ensures Step(c, p, tx).Done? ==>
              Step(c, p, tx)
              == Done(p.(exitAttempts := p.exitAttempts + 1, lastExitFee := tx.action.fee.value, lastExitAt := tx.now),
                      [ExitRequestSubmitted(tx.action.fee.value, p.exitAttempts + 1)])
  {
    hide Total;
    assert At(p.credited, tx.caller) > 0 <==> p.stage.ToppedUp? && tx.caller in p.participants;
  }

  /** A refund fails only for its stated reasons, in whatever order refunds and claims are made, and is always whole. */
  lemma RefundSucceedsExactly(c: Config, p: Pool, tx: Tx)
    requires Inv(c, p) && tx.action.RefundTo?
    ensures Step(c, p, tx).Done? <==>
            && tx.action.recipient != 0 && tx.action.recipient != c.pool
            && At(p.refundable, tx.caller) > 0 && tx.action.paid
    ensures Step(c, p, tx).Done? ==>
              var amount := At(p.refundable, tx.caller);
              && amount <= p.balance && amount <= p.totalRefundable
              && Step(c, p, tx).pool
                 == p.(refundable := p.refundable[tx.caller := 0], balance := p.balance - amount,
                       totalRefundable := p.totalRefundable - amount, totalRefunded := p.totalRefunded + amount)
  {
    hide Agreement, Total;
    StepKeepsInv(c, p, tx);
    InvGross(c, p);
    PartBelowTotal(p.refundable, tx.caller);
  }

  /**
   A claim fails only for its stated reasons: the pool can always pay what is claimable. It pays what
   earlier claims left of the caller's share of all proceeds so far, rounded down to whole wei.
   */
  lemma ClaimSucceedsExactly(c: Config, p: Pool, tx: Tx)
    requires Inv(c, p) && tx.action.ClaimTo?
    ensures Step(c, p, tx).Done? <==>
            && p.stage.ToppedUp? && tx.action.recipient != 0 && tx.action.recipient != c.pool
            && Claimable(p, tx.caller) > 0 && tx.action.paid
    ensures Step(c, p, tx).Done? ==>
              var q := Step(c, p, tx).pool;
              var gross := p.balance + p.totalClaimed - p.totalRefundable;
              var amount := At(q.claimed, tx.caller) - At(p.claimed, tx.caller);
              && 0 < amount <= p.balance - p.totalRefundable
              && At(q.claimed, tx.caller) * 32_000_000_000_000_000_000 <= gross * At(p.credited, tx.caller)
              && gross * At(p.credited, tx.caller) < (At(q.claimed, tx.caller) + 1) * 32_000_000_000_000_000_000
              && q == p.(claimed := p.claimed[tx.caller := At(p.claimed, tx.caller) + amount],
                         totalClaimed := p.totalClaimed + amount, balance := p.balance - amount)
  {
    hide Agreement, Total, Claimable;
    StepKeepsInv(c, p, tx);
    InvGross(c, p);
    if p.stage.ToppedUp? {
      ClaimFits(p, tx.caller);
      hide Entitled;
      ClaimableCompletes(p, tx.caller);
      EntitledBounds(Gross(p), At(p.credited, tx.caller));
    }
  }

  // ---------------------------------------------------------------- logs

  /** The closing snapshot carries the ledger's own figures, and proceeds that account for balance and claims. */
  ghost predicate Tells(log: Log, q: Pool) {
    log.AccountingSnapshot? && log.stage == q.stage && log.attempt == q.attempt && log.balance == q.balance
    && log.totalActive == q.totalActive && log.totalRefundable == q.totalRefundable
    && log.totalRefunded == q.totalRefunded && log.totalCredited == q.totalCredited
    && log.totalClaimed == q.totalClaimed && log.gross + q.totalRefundable == q.balance + q.totalClaimed
  }

  function Grown(before: nat, after: nat): nat {
    if after <= before then 0 else after - before
  }

  /** What a transaction other than a close logs before its snapshot, told by the ledgers on either side of it. */
  ghost function Story(p: Pool, q: Pool, caller: Address, action: Action): seq<Log>
    requires !action.Close?
  {
    match action
    case Commit(_, _, _) => [ValidatorPredeposited]
    case Open(_, _) => [FundingAttemptOpened(q.attempt, q.deadline)]
    case Fund(value) => [ParticipantFunded(p.attempt, caller, value, At(q.active, caller), q.totalActive)]
    case Transfer(value) =>
      if p.stage.ToppedUp? then [EthReceivedViaCall(caller, value)]
      else [ParticipantFunded(p.attempt, caller, value, At(q.active, caller), q.totalActive)]
    case TopUp(_) => [ValidatorTopUpSubmitted, PoolToppedUp]
    case RequestExit(_, _, _, _, _) => [ExitRequestSubmitted(q.lastExitFee, q.exitAttempts)]
    case RefundTo(recipient, _) => [Refunded(caller, recipient, At(p.refundable, caller))]
    case ClaimTo(recipient, _) => [Claimed(caller, recipient, Grown(At(p.claimed, caller), At(q.claimed, caller)))]
    case Force(_) => []
  }

  ghost predicate Silent(p: Pool, action: Action) {
    action.RequestExit? || action.Force? || (action.Transfer? && p.stage.ToppedUp?)
  }

  /** Every successful transaction logs its own story, then a snapshot unless it is an exit request or mere income. */
  lemma LogsTellTheStep(c: Config, p: Pool, tx: Tx)
    requires Inv(c, p) && !tx.action.Close? && Step(c, p, tx).Done?
    ensures var Done(q, logs) := Step(c, p, tx);
            if tx.action.RequestExit? || tx.action.Force? || (tx.action.Transfer? && p.stage.ToppedUp?)
            then logs == Story(p, q, tx.caller, tx.action)
            else logs != [] && logs[..|logs| - 1] == Story(p, q, tx.caller, tx.action) && Tells(logs[|logs| - 1], q)
  {
    hide Inv, EffectOf, Story;
    EffectTellsTheStep(c, p, tx);
    var Effect(q, logs, snapshot) := EffectOf(c, p, tx);
    if snapshot {
      assert (logs + [SnapshotOf(q)])[..|logs|] == logs;
    }
  }

  lemma EffectTellsTheStep(c: Config, p: Pool, tx: Tx)
    requires !tx.action.Close? && EffectOf(c, p, tx).Effect?
    ensures var Effect(q, logs, snapshot) := EffectOf(c, p, tx);
            logs == Story(p, q, tx.caller, tx.action) && (snapshot <==> !Silent(p, tx.action))
  {
    if tx.action.Commit? || tx.action.Open? || tx.action.TopUp? {
      OperatorTellsTheStep(c, p, tx);
    } else if tx.action.Fund? || tx.action.Transfer? || tx.action.Force? {
      hide Remaining;
    } else {
      PayoutTellsTheStep(c, p, tx);
    }
  }

  lemma OperatorTellsTheStep(c: Config, p: Pool, tx: Tx)
    requires (tx.action.Commit? || tx.action.Open? || tx.action.TopUp?) && EffectOf(c, p, tx).Effect?
    ensures var Effect(q, logs, snapshot) := EffectOf(c, p, tx);
            logs == Story(p, q, tx.caller, tx.action) && snapshot
  {
    hide AttemptError, Assigned, CreditsUpTo, CreditTotalUpTo;
  }

  lemma PayoutTellsTheStep(c: Config, p: Pool, tx: Tx)
    requires (tx.action.RequestExit? || tx.action.RefundTo? || tx.action.ClaimTo?) && EffectOf(c, p, tx).Effect?
    ensures var Effect(q, logs, snapshot) := EffectOf(c, p, tx);
            logs == Story(p, q, tx.caller, tx.action) && (snapshot <==> !tx.action.RequestExit?)
  {
    hide Claimable;
  }

  /** How many of the first `n` participants have active funding. */
  ghost function FundedBefore(p: Pool, n: nat): nat
    requires n <= |p.participants|
  {
    |set i | 0 <= i < n && At(p.active, p.participants[i]) > 0|
  }

  ghost function ActiveOf(p: Pool, n: nat): seq<nat>
    requires n <= |p.participants|
  {
    seq(n, i requires 0 <= i < n => At(p.active, p.participants[i]))
  }

  lemma FundedNext(p: Pool, n: nat)
    requires n < |p.participants|
    ensures FundedBefore(p, n + 1) == FundedBefore(p, n) + if At(p.active, p.participants[n]) > 0 then 1 else 0
    ensures Sum(ActiveOf(p, n + 1)) == Sum(ActiveOf(p, n)) + At(p.active, p.participants[n])
  {
    var before, after := set i | 0 <= i < n && At(p.active, p.participants[i]) > 0,
                         set i | 0 <= i < n + 1 && At(p.active, p.participants[i]) > 0;
    assert after == if At(p.active, p.participants[n]) > 0 then before + {n} else before;
    assert ActiveOf(p, n + 1)[..n] == ActiveOf(p, n);
  }

  /** One turn of the closing loop: a funded participant is credited once, with the totals so far. */
  lemma ClosingTurnLogs(p: Pool, n: nat)
    requires n < |p.participants| && Distinct(p.participants)
    ensures var a, q := p.participants[n], ClosedUpTo(p, n);
            var funded := At(p.active, a);
            && ClosedOneLogs(q, a)
               == (if funded == 0 then []
                   else [RefundCredited(p.attempt, a, funded, At(p.refundable, a) + funded, q.totalRefundable
                                        + funded)])
            && ClosedUpTo(p, n + 1).totalRefundable == q.totalRefundable + funded
  {
    hide ClosedUpTo;
    ClosingTouches(p, n);
    ClosingMoves(p, n);
    ClosingStep(p, n);
    assert p.participants[n] !in p.participants[..n];
  }

  lemma ClosingStep(p: Pool, n: nat)
    requires n < |p.participants|
    ensures ClosedUpTo(p, n + 1) == ClosedOne(ClosedUpTo(p, n), p.participants[n])
    ensures ClosedUpToLogs(p, n + 1) == ClosedUpToLogs(p, n) + ClosedOneLogs(ClosedUpTo(p, n), p.participants[n])
  {
  }

  lemma {:induction false} ClosingLoopTotals(p: Pool, n: nat)
    requires n <= |p.participants| && Distinct(p.participants)
    ensures ClosedUpTo(p, n).totalRefundable == p.totalRefundable + Sum(ActiveOf(p, n))
    ensures |ClosedUpToLogs(p, n)| == FundedBefore(p, n)
  {
    hide ClosedOne, ClosedOneLogs, FundedBefore, ActiveOf, Sum;
    NobodyBefore(p, n);
    if n > 0 {
      ClosingLoopTotals(p, n - 1);
      ClosingTotalsNext(p, n - 1);
    }
  }

  lemma NobodyBefore(p: Pool, n: nat)
    requires n <= |p.participants|
    ensures n == 0 ==> FundedBefore(p, n) == 0 && Sum(ActiveOf(p, n)) == 0
  {
    var funded := set i | 0 <= i < n && At(p.active, p.participants[i]) > 0;
    assert n == 0 ==> funded == {};
  }

  lemma ClosingTotalsNext(p: Pool, m: nat)
    requires m < |p.participants| && Distinct(p.participants)
    requires ClosedUpTo(p, m).totalRefundable == p.totalRefundable + Sum(ActiveOf(p, m))
    requires |ClosedUpToLogs(p, m)| == FundedBefore(p, m)
    ensures ClosedUpTo(p, m + 1).totalRefundable == p.totalRefundable + Sum(ActiveOf(p, m + 1))
    ensures |ClosedUpToLogs(p, m + 1)| == FundedBefore(p, m + 1)
  {
    hide ClosedUpTo, ClosedUpToLogs, ClosedOne, ClosedOneLogs, FundedBefore, ActiveOf, Sum;
    ClosingStep(p, m);
    ClosingTurnLogs(p, m);
    FundedNext(p, m);
  }

  lemma {:induction false} ClosingLoopLogs(p: Pool, n: nat)
    requires n <= |p.participants| && Distinct(p.participants)
    ensures forall i :: 0 <= i < n && At(p.active, p.participants[i]) > 0 ==>
              CreditLogged(p, i, ClosedUpToLogs(p, n))
  {
    hide ClosedOne, ClosedOneLogs, CreditLogged;
    if n > 0 {
      ClosingLoopLogs(p, n - 1);
      ClosingStep(p, n - 1);
      ClosingTurnLogged(p, n - 1, ClosedUpToLogs(p, n - 1));
    }
  }

  lemma ClosingTurnLogged(p: Pool, m: nat, logs: seq<Log>)
    requires m < |p.participants| && Distinct(p.participants) && logs == ClosedUpToLogs(p, m)
    requires forall i :: 0 <= i < m && At(p.active, p.participants[i]) > 0 ==> CreditLogged(p, i, logs)
    ensures forall i :: 0 <= i < m + 1 && At(p.active, p.participants[i]) > 0 ==>
              CreditLogged(p, i, logs + ClosedOneLogs(ClosedUpTo(p, m), p.participants[m]))
  {
    hide ClosedUpTo, ClosedUpToLogs, ClosedOneLogs, FundedBefore, ActiveOf, Sum;
    ClosingLoopTotals(p, m);
    ClosingTurnLogs(p, m);
    FundedNext(p, m);
  }

  /** In its place among the logs, the credit of participant `i`: the whole funding and both running totals. */
  ghost predicate CreditLogged(p: Pool, i: nat, logs: seq<Log>)
    requires i < |p.participants|
  {
    var a := p.participants[i];
    && FundedBefore(p, i) < |logs|
    && logs[FundedBefore(p, i)] == RefundCredited(p.attempt, a, At(p.active, a), At(p.refundable, a) + At(p.active, a),
                                                  p.totalRefundable + Sum(ActiveOf(p, i + 1)))
  }

  /** A close logs one credit for every funded participant, in order, then the attempt's end and the snapshot. */
  lemma ClosingLogsEveryCredit(c: Config, p: Pool, tx: Tx)
    requires Inv(c, p) && tx.action.Close? && Step(c, p, tx).Done?
    ensures var Done(q, logs) := Step(c, p, tx);
            var count := FundedBefore(p, |p.participants|);
            && |logs| == count + 2
            && logs[count] == FundingAttemptClosed(p.attempt) && Tells(logs[count + 1], q)
            && forall i :: 0 <= i < |p.participants| && At(p.active, p.participants[i]) > 0 ==>
                 CreditLogged(p, i, logs[..count])
  {
    hide Total, ClosedUpTo, ClosedUpToLogs, FundedBefore, ActiveOf, Sum, CreditLogged;
    ClosingLoopTotals(p, |p.participants|);
    ClosingLoopLogs(p, |p.participants|);
    var logs := ClosedUpToLogs(p, |p.participants|);
    assert Step(c, p, tx).logs[..|logs|] == logs;
  }

  // ---------------------------------------------------------------- deadlines and panics

  /** No timestamp lets an attempt be closed while it can still be funded, by either route, or topped up. */
  lemma DeadlineSeparates(c: Config, p: Pool, close: Tx, other: Tx)
    requires close.action.Close? && (other.action.Fund? || other.action.Transfer? || other.action.TopUp?)
    requires Step(c, p, close).Done? && Step(c, p, other).Done?
    ensures other.now <= p.deadline < close.now
  {
    hide ClosedUpTo, ClosedUpToLogs, CreditsUpTo, CreditTotalUpTo, Remaining;
  }

  /** No checked subtraction underflows and no division is by zero: only an oversized target list or window panics. */
  lemma OnlyOpeningCanPanic(c: Config, p: Pool, tx: Tx)
    requires Inv(c, p)
    ensures Step(c, p, tx) == Reverted(Panic) ==>
              tx.action.Open? && (tx.now + c.window > UINT256_MAX || Sum(tx.action.targets) > UINT256_MAX)
  {
    hide Inv, EffectOf;
    StepKeepsInv(c, p, tx);
    EffectPanics(c, p, tx);
  }

  lemma EffectPanics(c: Config, p: Pool, tx: Tx)
    requires Inv(c, p)
    ensures EffectOf(c, p, tx) == Refused(Panic) ==>
              tx.action.Open? && (tx.now + c.window > UINT256_MAX || Sum(tx.action.targets) > UINT256_MAX)
  {
    hide Agreement, Total, Remaining, Claimable, AttemptError, Assigned, ClosedUpTo, ClosedUpToLogs, CreditsUpTo;
    hide CreditTotalUpTo;
    InvGross(c, p);
    PartBelowTotal(p.refundable, tx.caller);
    if tx.action.Open? && p.stage.Predeposited?
        && AttemptError(c, p, tx.action.addresses, tx.action.targets) == Some(Panic) {
      AttemptPanics(c, p, tx.action.addresses, tx.action.targets);
    }
  }

  lemma AttemptPanics(c: Config, p: Pool, addresses: seq<Address>, targets: seq<nat>)
    requires AttemptError(c, p, addresses, targets) == Some(Panic)
    ensures Sum(targets) > UINT256_MAX
  {
    assert targets[..0] == [];
    TargetsPanic(c, p, addresses, targets, 0, false);
  }

  lemma {:induction false} TargetsPanic(c: Config, p: Pool, addresses: seq<Address>, targets: seq<nat>, i: nat,
                                        seen: bool)
    requires |addresses| == |targets| && i <= |addresses|
    requires TargetsError(c, p, addresses, targets, i, Sum(targets[..i]), seen) == Some(Panic)
    ensures Sum(targets) > UINT256_MAX
    decreases |addresses| - i
  {
    assert i < |addresses|;
    assert targets[..i + 1][..i] == targets[..i];
    assert Sum(targets[..i + 1]) == Sum(targets[..i]) + targets[i];
    SumOfPrefix(targets, i + 1);
    if Sum(targets[..i + 1]) <= UINT256_MAX {
      TargetsPanic(c, p, addresses, targets, i + 1, seen || addresses[i] == c.operator);
    }
  }

  /**
   The one product in the contract, gross proceeds times a credit, fits a 256-bit word while supply
   is below 2^128 wei.
   */
  lemma EntitlementFitsWord(c: Config, p: Pool, a: Address)
    requires Inv(c, p) && p.stage.ToppedUp?
    requires p.balance + p.totalClaimed < 0x1_0000_0000_0000_0000_0000_0000_0000_0000
    ensures Gross(p) * At(p.credited, a) <= UINT256_MAX
  {
    hide Agreement, Total;
    PartBelowTotal(p.credited, a);
    ProductGrows(Gross(p), 0x1_0000_0000_0000_0000_0000_0000_0000_0000, At(p.credited, a));
  }

  // ---------------------------------------------------------------- solvency

  function SoleOperatorRun(operator: Address, data: ValidatorData): seq<Tx> {
    [Tx(0, operator, Commit(PREDEPOSIT, data, true)),
     Tx(0, operator, Open([operator], [VALIDATOR_DEPOSIT])),
     Tx(0, operator, Fund(TOP_UP)),
     Tx(0, operator, TopUp(true))]
  }

  /** A four-transaction run after which the balance is zero while active funding still reads 31 ETH. */
  lemma ToppedUpPoolMayHoldLess(c: Config, data: ValidatorData)
    requires c.operator != ZERO_ADDRESS && c.window <= UINT256_MAX
    requires DataError(data.pubkey, data.predepositSignature, data.predepositRoot) == None
    requires DataError(data.pubkey, data.topUpSignature, data.topUpRoot) == None
    ensures var p := After(c, DEPLOYED, SoleOperatorRun(c.operator, data));
            p.stage.ToppedUp? && p.balance == 0 && p.totalActive == TOP_UP
  {
    var op := c.operator;
    var txs := SoleOperatorRun(op, data);
    var p1 := Next(c, DEPLOYED, txs[0]);
    assert p1 == DEPLOYED.(stage := Predeposited, pubkey := data.pubkey);
    assert [op][..1] == [op] && Sum([VALIDATOR_DEPOSIT]) == VALIDATOR_DEPOSIT by {
      assert [VALIDATOR_DEPOSIT][..0] == [];
    }
    AttemptAcceptedExactly(c, p1, [op], [VALIDATOR_DEPOSIT]);
    assert Assigned(map[], [op], [VALIDATOR_DEPOSIT], 1) == map[op := VALIDATOR_DEPOSIT] by {
      assert Assigned(map[], [op], [VALIDATOR_DEPOSIT], 0) == map[];
    }
    var p2 := Next(c, p1, txs[1]);
    assert p2 == p1.(stage := Funding, attempt := 1, deadline := c.window, participants := [op],
                     target := map[op := VALIDATOR_DEPOSIT]);
    var p3 := Next(c, p2, txs[2]);
    assert p3 == p2.(balance := TOP_UP, totalActive := TOP_UP, active := map[op := TOP_UP]);
    assert CreditTotalUpTo(p3, 1) == VALIDATOR_DEPOSIT by {
      assert CreditTotalUpTo(p3, 0) == 0;
    }
    var p4 := Next(c, p3, txs[3]);
    assert p4.stage.ToppedUp? && p4.balance == 0 && p4.totalActive == TOP_UP;
    assert txs[1..][0] == txs[1] && txs[1..][1..] == txs[2..] && txs[2..][1..] == txs[3..] && txs[3..][1..] == [];
    assert After(c, p3, txs[3..]) == p4;
    assert After(c, p2, txs[2..]) == p4;
    assert After(c, p1, txs[1..]) == p4;
  }
}
