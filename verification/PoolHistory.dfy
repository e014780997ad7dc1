/**
 Whole runs: what the pool owes and holds, read back from the logs it has emitted since deployment.

 Every figure is a sum over an unbounded run of transactions, so these theorems span any number of
 funding attempts and any order of claims, refunds, proceeds and forced ETH.
 */
module PoolHistory {
  import opened Amounts
  import opened Options
  import opened PoolLedger
  import opened PoolInvariant

  datatype Kind = FundedKind | CreditedBackKind | RefundedKind | ClaimedKind | ViaCallKind | TopUpKind

  /** The amount a log records under a kind, for one account or (with `None`) for everybody. */
  function AmountIn(l: Log, k: Kind, who: Option<Address>): nat {
    match (l, k)
    case (ParticipantFunded(_, a, v, _, _), FundedKind) => if who.None? || who.value == a then v else 0
    case (RefundCredited(_, a, v, _, _), CreditedBackKind) => if who.None? || who.value == a then v else 0
    case (Refunded(a, _, v), RefundedKind) => if who.None? || who.value == a then v else 0
    case (Claimed(a, _, v), ClaimedKind) => if who.None? || who.value == a then v else 0
    case (EthReceivedViaCall(a, v), ViaCallKind) => if who.None? || who.value == a then v else 0
    case (ValidatorTopUpSubmitted, TopUpKind) => if who.None? then TOP_UP else 0
    case _ => 0
  }

  function Logged(logs: seq<Log>, k: Kind, who: Option<Address>): nat {
    if logs == [] then 0 else Logged(logs[..|logs| - 1], k, who) + AmountIn(logs[|logs| - 1], k, who)
  }

  lemma {:induction false} LoggedConcat(first: seq<Log>, second: seq<Log>, k: Kind, who: Option<Address>)
    ensures Logged(first + second, k, who) == Logged(first, k, who) + Logged(second, k, who)
    decreases |second|
  {
    if second == [] {
      assert first + second == first;
    } else {
      assert (first + second)[..|first + second| - 1] == first + second[..|second| - 1];
      LoggedConcat(first, second[..|second| - 1], k, who);
    }
  }

  lemma LoggedOne(l: Log, k: Kind, who: Option<Address>)
    ensures Logged([l], k, who) == AmountIn(l, k, who)
  {
    assert [l][..0] == [];
  }

  /** ETH that reached the pool with no call and therefore no log. */
  function Forced(txs: seq<Tx>): nat {
    if txs == [] then 0
    else Forced(txs[..|txs| - 1]) + (if txs[|txs| - 1].action.Force? then txs[|txs| - 1].action.value else 0)
  }

  lemma {:induction false} ForcedConcat(first: seq<Tx>, second: seq<Tx>)
    ensures Forced(first + second) == Forced(first) + Forced(second)
    decreases |second|
  {
    if second == [] {
      assert first + second == first;
    } else {
      assert (first + second)[..|first + second| - 1] == first + second[..|second| - 1];
      ForcedConcat(first, second[..|second| - 1]);
    }
  }

  /** One account's movements between two ledgers are the ones the logs record. */
  ghost predicate AccountMoved(p: Pool, q: Pool, logs: seq<Log>, a: Address) {
    && At(q.active, a) + Logged(logs, CreditedBackKind, Some(a)) == At(p.active, a) + Logged(logs, FundedKind, Some(a))
    && At(q.refundable, a) + Logged(logs, RefundedKind, Some(a))
        == At(p.refundable, a) + Logged(logs, CreditedBackKind, Some(a))
    && At(q.claimed, a) == At(p.claimed, a) + Logged(logs, ClaimedKind, Some(a))
  }

  /** The pool's totals and its balance move by what the logs record and what was forced in. */
  ghost predicate PoolMoved(p: Pool, q: Pool, logs: seq<Log>, forced: nat) {
    && q.totalActive + Logged(logs, CreditedBackKind, None) == p.totalActive + Logged(logs, FundedKind, None)
    && q.totalRefundable + Logged(logs, RefundedKind, None) == p.totalRefundable + Logged(logs, CreditedBackKind, None)
    && q.totalRefunded == p.totalRefunded + Logged(logs, RefundedKind, None)
    && q.totalClaimed == p.totalClaimed + Logged(logs, ClaimedKind, None)
    && q.balance + Logged(logs, RefundedKind, None) + Logged(logs, ClaimedKind, None) + Logged(logs, TopUpKind, None)
       == p.balance + Logged(logs, FundedKind, None) + Logged(logs, ViaCallKind, None) + forced
    && (Logged(logs, TopUpKind, None) == if q.stage.ToppedUp? && !p.stage.ToppedUp? then TOP_UP else 0)
    && (p.stage.ToppedUp? ==> q.stage.ToppedUp?)
  }

  lemma MovedCompose(p: Pool, q: Pool, r: Pool, first: seq<Log>, second: seq<Log>, f: nat, g: nat)
    requires PoolMoved(p, q, first, f) && PoolMoved(q, r, second, g)
    requires forall a :: AccountMoved(p, q, first, a) && AccountMoved(q, r, second, a)
    ensures PoolMoved(p, r, first + second, f + g)
    ensures forall a :: AccountMoved(p, r, first + second, a)
  {
    hide Logged;
    forall k ensures Logged(first + second, k, None) == Logged(first, k, None) + Logged(second, k, None) {
      LoggedConcat(first, second, k, None);
    }
    forall a ensures AccountMoved(p, r, first + second, a) {
      assert AccountMoved(p, q, first, a) && AccountMoved(q, r, second, a);
      forall k ensures Logged(first + second, k, Some(a)) == Logged(first, k, Some(a)) + Logged(second, k, Some(a)) {
        LoggedConcat(first, second, k, Some(a));
      }
    }
  }

  // ---------------------------------------------------------------- one transaction

  lemma ClosedOneLogged(q: Pool, a: Address, k: Kind, who: Option<Address>)
    ensures Logged(ClosedOneLogs(q, a), k, who) ==
            if k == CreditedBackKind && (who.None? || who.value == a) then At(q.active, a) else 0
  {
    if At(q.active, a) != 0 {
      LoggedOne(ClosedOneLogs(q, a)[0], k, who);
    }
  }

  lemma ClosingLogsGrow(p: Pool, n: nat, k: Kind, who: Option<Address>)
    requires 0 < n <= |p.participants|
    ensures var q, a := ClosedUpTo(p, n - 1), p.participants[n - 1];
            Logged(ClosedUpToLogs(p, n), k, who) == Logged(ClosedUpToLogs(p, n - 1), k, who)
            + if k == CreditedBackKind && (who.None? || who.value == a) then At(q.active, a) else 0
  {
    hide Logged, ClosedOneLogs;
    var q, a := ClosedUpTo(p, n - 1), p.participants[n - 1];
    LoggedConcat(ClosedUpToLogs(p, n - 1), ClosedOneLogs(q, a), k, who);
    ClosedOneLogged(q, a, k, who);
  }

  lemma NothingClosed(p: Pool)
    ensures ClosedUpTo(p, 0) == p && ClosedUpToLogs(p, 0) == []
  {
  }

  lemma {:induction false} ClosingLogsNothingElse(p: Pool, n: nat, k: Kind, who: Option<Address>)
    requires n <= |p.participants| && k != CreditedBackKind
    ensures Logged(ClosedUpToLogs(p, n), k, who) == 0
  {
    hide Logged, ClosedUpToLogs, ClosedUpTo;
    if n == 0 {
      NothingClosed(p);
      LoggedNothing(k, who);
    } else {
      ClosingLogsGrow(p, n, k, who);
      ClosingLogsNothingElse(p, n - 1, k, who);
    }
  }

  lemma ClosedOneActive(q: Pool, a: Address, b: Address)
    ensures At(ClosedOne(q, a).active, b) == if b == a then 0 else At(q.active, b)
    ensures ClosedOne(q, a).totalRefundable == q.totalRefundable + At(q.active, a)
  {
  }

  lemma {:induction false} ClosingLogsAccount(p: Pool, n: nat, a: Address)
    requires n <= |p.participants|
    ensures At(ClosedUpTo(p, n).active, a) + Logged(ClosedUpToLogs(p, n), CreditedBackKind, Some(a)) == At(p.active, a)
  {
    hide Logged, ClosedUpTo, ClosedUpToLogs;
    if n == 0 {
      NothingClosed(p);
      LoggedNothing(CreditedBackKind, Some(a));
    } else {
      ClosingLogsAccount(p, n - 1, a);
      ClosingStepAccount(p, n, a);
    }
  }

  lemma ClosingStepAccount(p: Pool, n: nat, a: Address)
    requires 0 < n <= |p.participants|
    ensures At(ClosedUpTo(p, n).active, a) + Logged(ClosedUpToLogs(p, n), CreditedBackKind, Some(a))
         == At(ClosedUpTo(p, n - 1).active, a) + Logged(ClosedUpToLogs(p, n - 1), CreditedBackKind, Some(a))
  {
    hide Logged, ClosedUpToLogs, ClosedOne;
    ClosingLogsGrow(p, n, CreditedBackKind, Some(a));
    ClosedOneActive(ClosedUpTo(p, n - 1), p.participants[n - 1], a);
  }

  lemma {:induction false} ClosingLogsTotal(p: Pool, n: nat)
    requires n <= |p.participants|
    ensures ClosedUpTo(p, n).totalRefundable == p.totalRefundable + Logged(ClosedUpToLogs(p, n), CreditedBackKind, None)
  {
    hide Logged, ClosedUpToLogs, ClosedUpTo;
    if n == 0 {
      NothingClosed(p);
      LoggedNothing(CreditedBackKind, None);
    } else {
      ClosingLogsTotal(p, n - 1);
      ClosingStepTotal(p, n);
    }
  }

  lemma ClosingStepTotal(p: Pool, n: nat)
    requires 0 < n <= |p.participants|
    ensures ClosedUpTo(p, n).totalRefundable - Logged(ClosedUpToLogs(p, n), CreditedBackKind, None)
         == ClosedUpTo(p, n - 1).totalRefundable - Logged(ClosedUpToLogs(p, n - 1), CreditedBackKind, None)
  {
    hide Logged, ClosedUpToLogs, ClosedOne;
    ClosingLogsGrow(p, n, CreditedBackKind, None);
    ClosedOneActive(ClosedUpTo(p, n - 1), p.participants[n - 1], p.participants[n - 1]);
  }

  lemma CloseMoves(c: Config, p: Pool, now: nat)
    requires Inv(c, p) && CloseEffect(p, now).Effect?
    ensures PoolMoved(p, CloseEffect(p, now).pool, CloseEffect(p, now).logs, 0)
    ensures forall a :: AccountMoved(p, CloseEffect(p, now).pool, CloseEffect(p, now).logs, a)
  {
    hide Total, Agreement, ClosedUpTo, ClosedUpToLogs, Logged;
    var n := |p.participants|;
    var q, logs := CloseEffect(p, now).pool, CloseEffect(p, now).logs;
    CloseKeepsInv(c, p, now);
    ClosingLogsTotal(p, n);
    forall k, who | k != CreditedBackKind ensures Logged(ClosedUpToLogs(p, n), k, who) == 0 {
      ClosingLogsNothingElse(p, n, k, who);
    }
    ClosingTouches(p, n);
    ClosingMoves(p, n);
    forall k, who ensures Logged(logs, k, who) == Logged(ClosedUpToLogs(p, n), k, who) {
      LoggedConcat(ClosedUpToLogs(p, n), [FundingAttemptClosed(p.attempt)], k, who);
      LoggedOne(FundingAttemptClosed(p.attempt), k, who);
    }
    forall a ensures AccountMoved(p, q, logs, a) {
      ClosingLogsAccount(p, n, a);
      assert At(ClosedUpTo(p, n).active, a) + At(ClosedUpTo(p, n).refundable, a)
             == At(p.active, a) + At(p.refundable, a);
    }
  }

  lemma TwoLogs(l: Log, m: Log, k: Kind, who: Option<Address>)
    ensures Logged([l, m], k, who) == AmountIn(l, k, who) + AmountIn(m, k, who)
  {
    assert [l, m][..1] == [l];
    LoggedOne(l, k, who);
  }

  ghost function ForcedBy(tx: Tx): nat {
    if tx.action.Force? then tx.action.value else 0
  }

  lemma ShortLogs(logs: seq<Log>)
    requires |logs| <= 2
    ensures forall k, who :: Logged(logs, k, who) ==
                             (if |logs| > 0 then AmountIn(logs[0], k, who) else 0)
                                 + (if |logs| > 1 then AmountIn(logs[1], k, who) else 0)
  {
    hide AmountIn;
    forall k, who ensures Logged(logs, k, who) ==
                          (if |logs| > 0 then AmountIn(logs[0], k, who) else 0)
                              + (if |logs| > 1 then AmountIn(logs[1], k, who) else 0) {
      if |logs| == 1 {
        LoggedOne(logs[0], k, who);
        assert logs == [logs[0]];
      } else if |logs| == 2 {
        TwoLogs(logs[0], logs[1], k, who);
        assert logs == [logs[0], logs[1]];
      }
    }
  }

  ghost predicate Moved(p: Pool, e: Effect, forced: nat)
    requires e.Effect?
  {
    PoolMoved(p, e.pool, e.logs, forced) && forall a :: AccountMoved(p, e.pool, e.logs, a)
  }

  lemma FundMoves(c: Config, p: Pool, caller: Address, now: nat, value: nat)
    requires FundEffect(c, p, caller, now, value).Effect?
    ensures Moved(p, FundEffect(c, p, caller, now, value), 0)
  {
    hide Remaining, Logged;
    ShortLogs(FundEffect(c, p, caller, now, value).logs);
  }

  lemma TransferMoves(c: Config, p: Pool, caller: Address, now: nat, value: nat)
    requires TransferEffect(c, p, caller, now, value).Effect?
    ensures Moved(p, TransferEffect(c, p, caller, now, value), 0)
  {
    hide FundEffect, Logged;
    if p.stage.Funding? {
      FundMoves(c, p, caller, now, value);
    } else {
      ShortLogs(TransferEffect(c, p, caller, now, value).logs);
    }
  }

  lemma TopUpMoves(c: Config, p: Pool, caller: Address, now: nat, accepted: bool)
    requires TopUpEffect(c, p, caller, now, accepted).Effect?
    ensures Moved(p, TopUpEffect(c, p, caller, now, accepted), 0)
  {
    hide CreditsUpTo, CreditTotalUpTo, Logged;
    ShortLogs(TopUpEffect(c, p, caller, now, accepted).logs);
  }

  lemma RefundMoves(c: Config, p: Pool, caller: Address, recipient: Address, paid: bool)
    requires RefundEffect(c, p, caller, recipient, paid).Effect?
    ensures Moved(p, RefundEffect(c, p, caller, recipient, paid), 0)
  {
    hide Logged;
    ShortLogs(RefundEffect(c, p, caller, recipient, paid).logs);
  }

  lemma ClaimMoves(c: Config, p: Pool, caller: Address, recipient: Address, paid: bool)
    requires ClaimEffect(c, p, caller, recipient, paid).Effect?
    ensures Moved(p, ClaimEffect(c, p, caller, recipient, paid), 0)
  {
    hide Claimable, Logged;
    ShortLogs(ClaimEffect(c, p, caller, recipient, paid).logs);
  }

  lemma UnfundedMoves(c: Config, p: Pool, tx: Tx)
    requires tx.action.Commit? || tx.action.Open? || tx.action.RequestExit? || tx.action.Force?
    requires EffectOf(c, p, tx).Effect?
    ensures Moved(p, EffectOf(c, p, tx), ForcedBy(tx))
  {
    hide AttemptError, Assigned, DataError, Logged, FundEffect, TransferEffect, CloseEffect, TopUpEffect;
    hide RefundEffect, ClaimEffect;
    ShortLogs(EffectOf(c, p, tx).logs);
  }

  lemma LoggedNothing(k: Kind, who: Option<Address>)
    ensures Logged([], k, who) == 0
  {
  }

  /** Each transaction moves exactly what its logs say, whether it succeeds or reverts. */
  lemma StepMoves(c: Config, p: Pool, tx: Tx)
    requires Inv(c, p)
    ensures PoolMoved(p, Next(c, p, tx), LogsOf(c, p, tx), ForcedBy(tx))
    ensures forall a :: AccountMoved(p, Next(c, p, tx), LogsOf(c, p, tx), a)
  {
    hide Inv, EffectOf, Logged;
    StepKeepsInv(c, p, tx);
    forall k, who ensures Logged([], k, who) == 0 {
      LoggedNothing(k, who);
    }
    if EffectOf(c, p, tx).Effect? {
      EffectMoves(c, p, tx);
      var e := EffectOf(c, p, tx);
      if e.snapshot {
        forall k, who ensures Logged(e.logs + [SnapshotOf(e.pool)], k, who) == Logged(e.logs, k, who) {
          LoggedConcat(e.logs, [SnapshotOf(e.pool)], k, who);
          LoggedOne(SnapshotOf(e.pool), k, who);
        }
      }
      forall a ensures AccountMoved(p, e.pool, LogsOf(c, p, tx), a) {
        assert AccountMoved(p, e.pool, e.logs, a);
      }
    } else {
      ForceNeverRefused(c, p, tx);
    }
  }

  lemma ForceNeverRefused(c: Config, p: Pool, tx: Tx)
    ensures tx.action.Force? ==> EffectOf(c, p, tx).Effect?
  {
  }

  lemma EffectMoves(c: Config, p: Pool, tx: Tx)
    requires Inv(c, p) && EffectOf(c, p, tx).Effect?
    ensures Moved(p, EffectOf(c, p, tx), ForcedBy(tx))
  {
    hide Inv, PoolMoved, AccountMoved, CommitEffect, OpenEffect, FundEffect, TransferEffect, CloseEffect,
         TopUpEffect, ExitEffect, RefundEffect, ClaimEffect;
    match tx.action
    case Fund(value) => FundMoves(c, p, tx.caller, tx.now, value);
    case Transfer(value) => TransferMoves(c, p, tx.caller, tx.now, value);
    case Close => CloseMoves(c, p, tx.now);
    case TopUp(accepted) => TopUpMoves(c, p, tx.caller, tx.now, accepted);
    case RefundTo(recipient, paid) => RefundMoves(c, p, tx.caller, recipient, paid);
    case ClaimTo(recipient, paid) => ClaimMoves(c, p, tx.caller, recipient, paid);
    case _ => UnfundedMoves(c, p, tx);
  }

  /** Conservation over any run, for the pool and for every account. */
  lemma {:induction false} RunMoves(c: Config, p: Pool, txs: seq<Tx>)
    requires Inv(c, p)
    ensures PoolMoved(p, After(c, p, txs), Trail(c, p, txs), Forced(txs))
    ensures forall a :: AccountMoved(p, After(c, p, txs), Trail(c, p, txs), a)
    decreases |txs|
  {
    hide Inv, Next, LogsOf;
    if txs != [] {
      var q := Next(c, p, txs[0]);
      StepMoves(c, p, txs[0]);
      StepKeepsInv(c, p, txs[0]);
      RunMoves(c, q, txs[1..]);
      MovedCompose(p, q, After(c, p, txs), LogsOf(c, p, txs[0]), Trail(c, q, txs[1..]), ForcedBy(txs[0]),
                   Forced(txs[1..]));
      assert txs == [txs[0]] + txs[1..];
      ForcedConcat([txs[0]], txs[1..]);
      assert [txs[0]][..0] == [];
    }
  }

  // ---------------------------------------------------------------- since deployment

  function FirstLedger(prefunded: nat): Pool {
    DEPLOYED.(balance := prefunded)
  }

  lemma RunSinceDeployment(c: Config, prefunded: nat, txs: seq<Tx>)
    ensures Inv(c, After(c, FirstLedger(prefunded), txs))
    ensures PoolMoved(FirstLedger(prefunded), After(c, FirstLedger(prefunded), txs),
                      Trail(c, FirstLedger(prefunded), txs), Forced(txs))
    ensures forall a :: AccountMoved(FirstLedger(prefunded), After(c, FirstLedger(prefunded), txs),
                                     Trail(c, FirstLedger(prefunded), txs), a)
  {
    hide Inv, PoolMoved, AccountMoved;
    DeployedHoldsInv(c, prefunded);
    RunKeepsInv(c, FirstLedger(prefunded), txs);
    RunMoves(c, FirstLedger(prefunded), txs);
  }

  /**
   Every wei an account ever funded is in its active funding, owed back to it, or already refunded;
   every wei owed or refunded came out of its funding in an attempt that was closed.
   */
  lemma FundingIsNeverLost(c: Config, prefunded: nat, txs: seq<Tx>, a: Address)
    ensures var p, logs := After(c, FirstLedger(prefunded), txs), Trail(c, FirstLedger(prefunded), txs);
            && Logged(logs, FundedKind, Some(a))
               == At(p.active, a) + At(p.refundable, a) + Logged(logs, RefundedKind, Some(a))
            && Logged(logs, CreditedBackKind, Some(a)) == At(p.refundable, a) + Logged(logs, RefundedKind, Some(a))
            && At(p.claimed, a) == Logged(logs, ClaimedKind, Some(a))
  {
    hide Inv, Logged;
    RunSinceDeployment(c, prefunded, txs);
    assert AccountMoved(FirstLedger(prefunded), After(c, FirstLedger(prefunded), txs),
                        Trail(c, FirstLedger(prefunded), txs), a);
  }

  /** All ETH that ever came in is in the pool, in the deposit contract, claimed, or refunded. */
  lemma EthIsConserved(c: Config, prefunded: nat, txs: seq<Tx>)
    ensures var p, logs := After(c, FirstLedger(prefunded), txs), Trail(c, FirstLedger(prefunded), txs);
            prefunded + Forced(txs) + Logged(logs, FundedKind, None) + Logged(logs, ViaCallKind, None)
            == p.balance + p.totalClaimed + p.totalRefunded + (if p.stage.ToppedUp? then TOP_UP else 0)
  {
    hide Inv, Logged;
    RunSinceDeployment(c, prefunded, txs);
  }

  /**
   Proceeds are exactly the ETH nobody asked to have back: forced in, or accepted after the top-up.
   Funding of a closed attempt never enters them; before the top-up only active funding sits beside them.
   */
  lemma ProceedsAreUnsolicitedEth(c: Config, prefunded: nat, txs: seq<Tx>)
    ensures var p, logs := After(c, FirstLedger(prefunded), txs), Trail(c, FirstLedger(prefunded), txs);
            Gross(p) == prefunded + Forced(txs) + Logged(logs, ViaCallKind, None)
                        + (if p.stage.ToppedUp? then 0 else p.totalActive)
  {
    hide Agreement, Total, Logged;
    RunSinceDeployment(c, prefunded, txs);
  }

  /**
   The balance covers refund claims and active funding together in every stage but the last. The
   top-up spends the active funding without clearing `totalActiveFundedWei`, so from then on the
   balance covers both exactly when the ETH that ever came in as proceeds, forced in, present at
   deployment or sent after the top-up, exceeds all claims so far by at least 31 ETH.
   */
  lemma BalanceCoversLiabilities(c: Config, prefunded: nat, txs: seq<Tx>)
    ensures var p, logs := After(c, FirstLedger(prefunded), txs), Trail(c, FirstLedger(prefunded), txs);
            && p.balance >= p.totalRefundable
            && (p.balance >= p.totalRefundable + p.totalActive
                <==> (p.stage.ToppedUp? ==>
                        prefunded + Forced(txs) + Logged(logs, ViaCallKind, None)
                            >= TOP_UP + Logged(logs, ClaimedKind, None)))
  {
    hide Agreement, Total, Logged;
    var p := After(c, FirstLedger(prefunded), txs);
    RunSinceDeployment(c, prefunded, txs);
    ProceedsAreUnsolicitedEth(c, prefunded, txs);
    InvGross(c, p);
  }

  // ---------------------------------------------------------------- payouts do not depend on timing

  predicate ClaimAttempt(c: Config, tx: Tx, a: Address) {
    tx.caller == a && tx.action.ClaimTo? && tx.action.paid && !BadRecipient(c, tx.action.recipient)
  }

  /** A claim that reaches its recipient brings the claimant to their full share, even when it finds nothing new. */
  lemma ClaimSettles(c: Config, p: Pool, tx: Tx, a: Address)
    requires Inv(c, p) && p.stage.ToppedUp? && ClaimAttempt(c, tx, a)
    ensures At(Next(c, p, tx).claimed, a) == Entitled(Gross(p), At(p.credited, a))
    ensures Gross(Next(c, p, tx)) == Gross(p)
    ensures Next(c, p, tx).credited == p.credited && Next(c, p, tx).stage.ToppedUp?
  {
    hide Agreement, Total, Entitled;
    ClaimableCompletes(p, a);
    ClaimFits(p, a);
    InvGross(c, p);
  }

  lemma CreditsAreFinal(c: Config, p: Pool, tx: Tx)
    requires p.stage.ToppedUp?
    ensures Next(c, p, tx).credited == p.credited && Next(c, p, tx).participants == p.participants
    ensures Next(c, p, tx).stage.ToppedUp?
  {
    hide EffectOf;
    if EffectOf(c, p, tx).Effect? {
      ToppedUpEffect(c, p, tx);
    }
  }

  lemma ToppedUpEffect(c: Config, p: Pool, tx: Tx)
    requires p.stage.ToppedUp? && EffectOf(c, p, tx).Effect?
    ensures var q := EffectOf(c, p, tx).pool;
            q == p.(balance := q.balance, totalRefundable := q.totalRefundable, totalRefunded := q.totalRefunded,
                    totalClaimed := q.totalClaimed, refundable := q.refundable, claimed := q.claimed,
                    exitAttempts := q.exitAttempts, lastExitFee := q.lastExitFee, lastExitAt := q.lastExitAt)
  {
    match tx.action
    case Transfer(value) =>
    case RequestExit(_, _, _, _, _) =>
      hide CommitEffect, OpenEffect, TopUpEffect, ClaimEffect, RefundEffect, CloseEffect;
    case RefundTo(_, _) => hide CommitEffect, OpenEffect, TopUpEffect, ClaimEffect, ExitEffect, CloseEffect;
    case ClaimTo(_, _) => hide CommitEffect, OpenEffect, TopUpEffect, RefundEffect, ExitEffect, CloseEffect, Claimable;
    case Force(_) =>
    case Commit(_, _, _) => hide OpenEffect, TopUpEffect, RefundEffect, ExitEffect, CloseEffect, ClaimEffect;
    case Open(_, _) => hide CommitEffect, TopUpEffect, RefundEffect, ExitEffect, CloseEffect, ClaimEffect;
    case Fund(_) =>
    case Close =>
    case TopUp(_) => hide CommitEffect, OpenEffect, RefundEffect, ExitEffect, CloseEffect, ClaimEffect;
  }

  /** After the top-up, proceeds only grow, by exactly what arrives; credits never change. */
  lemma {:induction false} ProceedsOnlyGrow(c: Config, p: Pool, txs: seq<Tx>)
    requires Inv(c, p) && p.stage.ToppedUp?
    ensures After(c, p, txs).stage.ToppedUp?
    ensures Gross(After(c, p, txs)) == Gross(p) + Forced(txs) + Logged(Trail(c, p, txs), ViaCallKind, None)
    ensures After(c, p, txs).credited == p.credited && After(c, p, txs).participants == p.participants
    ensures forall a :: At(p.claimed, a) <= At(After(c, p, txs).claimed, a)
    decreases |txs|
  {
    hide Agreement, Total, Logged, Next, Trail, After, Inv;
    RunKeepsInv(c, p, txs);
    RunMoves(c, p, txs);
    ActiveAfterTopUp(c, p);
    ActiveAfterTopUp(c, After(c, p, txs));
    CreditsStay(c, p, txs);
    forall a ensures At(p.claimed, a) <= At(After(c, p, txs).claimed, a) {
      assert AccountMoved(p, After(c, p, txs), Trail(c, p, txs), a);
    }
  }

  lemma ActiveAfterTopUp(c: Config, p: Pool)
    requires Inv(c, p) && p.stage.ToppedUp?
    ensures p.totalActive == TOP_UP && p.totalCredited == VALIDATOR_DEPOSIT && Gross(p) >= 0
  {
  }

  lemma {:induction false} CreditsStay(c: Config, p: Pool, txs: seq<Tx>)
    requires p.stage.ToppedUp?
    ensures After(c, p, txs).stage.ToppedUp?
    ensures After(c, p, txs).credited == p.credited && After(c, p, txs).participants == p.participants
    decreases |txs|
  {
    hide Next;
    if txs != [] {
      CreditsAreFinal(c, p, txs[0]);
      CreditsStay(c, Next(c, p, txs[0]), txs[1..]);
    }
  }

  /**
   Whatever the order of proceeds, claims and refunds in a run, an account that claims last has
   received in total the pro-rata part, rounded down once, of all ETH that ever became proceeds.
   */
  lemma CumulativePayoutIgnoresTiming(c: Config, prefunded: nat, txs: seq<Tx>, tx: Tx, a: Address)
    requires After(c, FirstLedger(prefunded), txs).stage.ToppedUp? && ClaimAttempt(c, tx, a)
    ensures var p, logs := After(c, FirstLedger(prefunded), txs), Trail(c, FirstLedger(prefunded), txs);
            Logged(Trail(c, FirstLedger(prefunded), txs + [tx]), ClaimedKind, Some(a))
            == Entitled(prefunded + Forced(txs) + Logged(logs, ViaCallKind, None), At(p.credited, a))
  {
    hide Inv, Logged, Entitled, Trail, Next, Forced;
    var first := FirstLedger(prefunded);
    var p := After(c, first, txs);
    RunSinceDeployment(c, prefunded, txs);
    ClaimSettles(c, p, tx, a);
    FundingIsNeverLost(c, prefunded, txs + [tx], a);
    AfterConcat(c, first, txs, [tx]);
    AfterOne(c, p, tx);
    ProceedsAreUnsolicitedEth(c, prefunded, txs);
  }

  lemma AfterOne(c: Config, p: Pool, tx: Tx)
    ensures After(c, p, [tx]) == Next(c, p, tx)
    ensures Trail(c, p, [tx]) == LogsOf(c, p, tx)
  {
    assert [tx][1..] == [];
  }

  /** With everybody settled, less than one wei per participant is left beyond the refunds. */
  lemma DustIsBelowOneWeiEach(c: Config, p: Pool)
    requires Inv(c, p) && p.stage.ToppedUp?
    requires forall a :: At(p.claimed, a) == Entitled(Gross(p), At(p.credited, a))
    ensures p.balance - p.totalRefundable < |p.participants|
  {
    hide Total, Entitled;
    var shares := Shares(p.credited, Gross(p));
    EntitledOfNothing(Gross(p));
    forall a ensures At(p.claimed, a) == At(shares, a) {
      assert At(p.claimed, a) == Entitled(Gross(p), At(p.credited, a));
    }
    TotalDominated(p.claimed, shares);
    SharesOfProceeds(p.credited, Gross(p));
    CreditHeld(p);
    var g, t, n := Gross(p), Total(shares), |p.credited|;
    assert g * VALIDATOR_DEPOSIT < (t + n) * VALIDATOR_DEPOSIT;
    assert g < t + n;
  }

  lemma CreditHeld(p: Pool)
    requires Total(p.credited) == VALIDATOR_DEPOSIT
    ensures p.credited != map[]
  {
    TotalOfZeros(map[]);
  }

  lemma StaysSettled(c: Config, p: Pool, txs: seq<Tx>, a: Address)
    requires Inv(c, p) && p.stage.ToppedUp?
    requires Forced(txs) == 0 && Logged(Trail(c, p, txs), ViaCallKind, None) == 0
    requires Gross(p) >= 0 && At(p.claimed, a) == Entitled(Gross(p), At(p.credited, a))
    ensures var q := After(c, p, txs); Gross(q) >= 0 && At(q.claimed, a) == Entitled(Gross(q), At(q.credited, a))
  {
    hide Inv, Entitled, Logged, Trail, After, Forced;
    ProceedsOnlyGrow(c, p, txs);
    RunKeepsInv(c, p, txs);
    ClaimsWithinShare(c, After(c, p, txs), a);
  }

  lemma ClaimsWithinShare(c: Config, p: Pool, a: Address)
    requires Inv(c, p) && p.stage.ToppedUp?
    ensures Gross(p) >= 0 && At(p.claimed, a) <= Entitled(Gross(p), At(p.credited, a))
  {
  }

  /**
   Once every participant has tried to claim, in any order and interleaved with anything that brings
   no new proceeds, the pool holds the outstanding refunds and less than one wei per participant.
   */
  lemma EveryoneClaimsLeavesDust(c: Config, p: Pool, txs: seq<Tx>)
    requires Inv(c, p) && p.stage.ToppedUp?
    requires Forced(txs) == 0 && Logged(Trail(c, p, txs), ViaCallKind, None) == 0
    requires forall a :: a in p.participants ==> exists i :: 0 <= i < |txs| && ClaimAttempt(c, txs[i], a)
    ensures After(c, p, txs).balance - After(c, p, txs).totalRefundable < |p.participants|
  {
    hide Inv, Entitled, Logged, Trail, After, Forced;
    var q := After(c, p, txs);
    RunKeepsInv(c, p, txs);
    ProceedsOnlyGrow(c, p, txs);
    InvGross(c, q);
    forall a ensures At(q.claimed, a) == Entitled(Gross(q), At(q.credited, a)) {
      ClaimsWithinShare(c, q, a);
      if a in p.participants {
        var i :| 0 <= i < |txs| && ClaimAttempt(c, txs[i], a);
        SettledByClaim(c, p, txs, i, a);
      } else {
        OnlyParticipantsHoldCredit(c, q, a);
        EntitledOfNothing(Gross(q));
      }
    }
    DustIsBelowOneWeiEach(c, q);
  }

  lemma OnlyParticipantsHoldCredit(c: Config, p: Pool, a: Address)
    requires Inv(c, p) && p.stage.ToppedUp?
    ensures At(p.credited, a) > 0 <==> a in p.participants
  {
  }

  lemma SettledByClaim(c: Config, p: Pool, txs: seq<Tx>, i: nat, a: Address)
    requires Inv(c, p) && p.stage.ToppedUp? && i < |txs| && ClaimAttempt(c, txs[i], a)
    requires Forced(txs) == 0 && Logged(Trail(c, p, txs), ViaCallKind, None) == 0
    ensures var q := After(c, p, txs); Gross(q) >= 0 && At(q.claimed, a) == Entitled(Gross(q), At(q.credited, a))
  {
    hide Inv, Entitled, Logged, Trail, After, Forced, Next, ClaimAttempt;
    var before, rest := txs[..i], txs[i + 1..];
    assert txs == before + ([txs[i]] + rest);
    AfterConcat(c, p, before, [txs[i]] + rest);
    var q := After(c, p, before);
    AfterConcat(c, q, [txs[i]], rest);
    AfterOne(c, q, txs[i]);
    ForcedConcat(before, [txs[i]] + rest);
    ForcedConcat([txs[i]], rest);
    LoggedConcat(Trail(c, p, before), Trail(c, q, [txs[i]] + rest), ViaCallKind, None);
    LoggedConcat(Trail(c, q, [txs[i]]), Trail(c, Next(c, q, txs[i]), rest), ViaCallKind, None);
    RunKeepsInv(c, p, before);
    CreditsStay(c, p, before);
    ClaimSettles(c, q, txs[i], a);
    StepKeepsInv(c, q, txs[i]);
    InvGross(c, Next(c, q, txs[i]));
    assert Forced(rest) == 0;
    assert Logged(Trail(c, Next(c, q, txs[i]), rest), ViaCallKind, None) == 0;
    StaysSettled(c, Next(c, q, txs[i]), rest, a);
    RunKeepsInv(c, Next(c, q, txs[i]), rest);
    CreditsStay(c, Next(c, q, txs[i]), rest);
    ClaimsWithinShare(c, After(c, p, txs), a);
  }
}
