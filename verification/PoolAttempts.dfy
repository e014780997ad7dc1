/**
 One funding attempt at a time: what each account put into an attempt, got back from it, and was
 credited for, read back from the logs of any run since deployment.
 */
module PoolAttempts {
  import opened Amounts
  import opened Options
  import opened PoolLedger
  import opened PoolInvariant
  import opened PoolHistory

  /** What a log puts into attempt `k` for account `a`. */
  function PutIn(l: Log, k: nat, a: Address): nat {
    if l.ParticipantFunded? && l.attempt == k && l.participant == a then l.amount else 0
  }

  /** What a log gives back from attempt `k` to account `a`, as a refund claim. */
  function GivenBack(l: Log, k: nat, a: Address): nat {
    if l.RefundCredited? && l.attempt == k && l.participant == a then l.amount else 0
  }

  function FundedIn(logs: seq<Log>, k: nat, a: Address): nat {
    if logs == [] then 0 else FundedIn(logs[..|logs| - 1], k, a) + PutIn(logs[|logs| - 1], k, a)
  }

  function CreditedBackFrom(logs: seq<Log>, k: nat, a: Address): nat {
    if logs == [] then 0 else CreditedBackFrom(logs[..|logs| - 1], k, a) + GivenBack(logs[|logs| - 1], k, a)
  }

  lemma {:induction false} AttemptConcat(first: seq<Log>, second: seq<Log>, k: nat, a: Address)
    ensures FundedIn(first + second, k, a) == FundedIn(first, k, a) + FundedIn(second, k, a)
    ensures CreditedBackFrom(first + second, k, a) == CreditedBackFrom(first, k, a) + CreditedBackFrom(second, k, a)
    decreases |second|
  {
    hide PutIn, GivenBack;
    if second == [] {
      assert first + second == first;
    } else {
      assert (first + second)[..|first + second| - 1] == first + second[..|second| - 1];
      AttemptConcat(first, second[..|second| - 1], k, a);
    }
  }

  // ---------------------------------------------------------------- one transaction is about one attempt

  /** Funding and refund credits carry this attempt number. */
  ghost predicate AllOf(logs: seq<Log>, n: nat) {
    forall i :: 0 <= i < |logs| ==> OfAttempt(logs[i], n)
  }

  predicate OfAttempt(l: Log, n: nat) {
    l.ParticipantFunded? || l.RefundCredited? ==> l.attempt == n
  }

  /** So they count for that attempt, and for no other. */
  lemma {:induction false} AttemptOfLogs(logs: seq<Log>, n: nat, k: nat, a: Address)
    requires AllOf(logs, n)
    ensures FundedIn(logs, k, a) == if k == n then Logged(logs, FundedKind, Some(a)) else 0
    ensures CreditedBackFrom(logs, k, a) == if k == n then Logged(logs, CreditedBackKind, Some(a)) else 0
  {
    if logs != [] {
      AttemptOfLogs(logs[..|logs| - 1], n, k, a);
      AttemptOfLog(logs[|logs| - 1], n, k, a);
      hide AmountIn, PutIn, GivenBack, OfAttempt;
    }
  }

  lemma AttemptOfLog(l: Log, n: nat, k: nat, a: Address)
    requires OfAttempt(l, n)
    ensures PutIn(l, k, a) == if k == n then AmountIn(l, FundedKind, Some(a)) else 0
    ensures GivenBack(l, k, a) == if k == n then AmountIn(l, CreditedBackKind, Some(a)) else 0
  {
  }

  lemma {:induction false} ClosingLogsOfAttempt(p: Pool, n: nat)
    requires n <= |p.participants|
    ensures AllOf(ClosedUpToLogs(p, n), p.attempt)
  {
    if n > 0 {
      ClosingLogsOfAttempt(p, n - 1);
      ClosingTouches(p, n - 1);
      hide ClosedUpTo;
    }
  }

  lemma StepLogsOfAttempt(c: Config, p: Pool, tx: Tx)
    ensures AllOf(LogsOf(c, p, tx), p.attempt)
  {
    EffectLogsOfAttempt(c, p, tx);
    hide EffectOf;
  }

  lemma EffectLogsOfAttempt(c: Config, p: Pool, tx: Tx)
    ensures EffectOf(c, p, tx).Effect? ==> AllOf(EffectOf(c, p, tx).logs, p.attempt)
  {
    hide ClosedUpTo, ClosedUpToLogs, AttemptError, Assigned, CreditsUpTo, CreditTotalUpTo, Remaining, Claimable;
    if tx.action.Close? {
      ClosingLogsOfAttempt(p, |p.participants|);
    }
  }

  /** The attempt the ledger is in has not been closed. */
  predicate Live(p: Pool) {
    p.stage.Funding? || p.stage.ToppedUp?
  }

  predicate Closes(c: Config, p: Pool, tx: Tx) {
    tx.action.Close? && Step(c, p, tx).Done?
  }

  /** Opening moves the counter on by one, from a ledger with no attempt in it. */
  lemma OpenOnAttempt(c: Config, p: Pool, caller: Address, now: nat, addresses: seq<Address>, targets: seq<nat>)
    requires OpenEffect(c, p, caller, now, addresses, targets).Effect?
    ensures var q := OpenEffect(c, p, caller, now, addresses, targets).pool;
            p.stage.Predeposited? && Live(q) && q.attempt == p.attempt + 1 && q.active == p.active
  {
    hide AttemptError, Assigned;
  }

  /** Closing leaves the counter and ends the attempt. */
  lemma CloseOnAttempt(p: Pool, now: nat)
    requires CloseEffect(p, now).Effect?
    ensures var q := CloseEffect(p, now).pool;
            p.stage.Funding? && p.deadline < now && q.attempt == p.attempt && !Live(q)
  {
    ClosingTouches(p, |p.participants|);
    hide ClosedUpTo, ClosedUpToLogs;
  }

  predicate KeepsAttempt(p: Pool, e: Effect) {
    e.Effect? ==> e.pool.attempt == p.attempt && Live(e.pool) == Live(p)
  }

  lemma CommitKeepsAttempt(c: Config, p: Pool, caller: Address, value: nat, data: ValidatorData, accepted: bool)
    ensures KeepsAttempt(p, CommitEffect(c, p, caller, value, data, accepted))
  {
  }

  lemma FundKeepsAttempt(c: Config, p: Pool, caller: Address, now: nat, value: nat)
    ensures KeepsAttempt(p, FundEffect(c, p, caller, now, value))
  {
    hide Remaining;
  }

  lemma TopUpKeepsAttempt(c: Config, p: Pool, caller: Address, now: nat, accepted: bool)
    ensures KeepsAttempt(p, TopUpEffect(c, p, caller, now, accepted))
  {
    hide CreditsUpTo, CreditTotalUpTo;
  }

  lemma PayoutsKeepAttempt(c: Config, p: Pool, caller: Address, recipient: Address, paid: bool)
    ensures KeepsAttempt(p, RefundEffect(c, p, caller, recipient, paid))
    ensures KeepsAttempt(p, ClaimEffect(c, p, caller, recipient, paid))
  {
    hide Claimable;
  }

  lemma ExitKeepsAttempt(c: Config, p: Pool, caller: Address, now: nat, value: nat, maxFee: nat,
                         fee: Option<nat>, accepted: bool, paid: bool)
    ensures KeepsAttempt(p, ExitEffect(c, p, caller, now, value, maxFee, fee, accepted, paid))
  {
  }

  /** Nothing else touches either. */
  lemma OthersOnAttempt(c: Config, p: Pool, tx: Tx)
    requires !tx.action.Open? && !tx.action.Close?
    ensures KeepsAttempt(p, EffectOf(c, p, tx))
  {
    hide CommitEffect, FundEffect, TopUpEffect, ExitEffect, RefundEffect, ClaimEffect;
    match tx.action
    case Commit(value, data, accepted) => CommitKeepsAttempt(c, p, tx.caller, value, data, accepted);
    case Fund(value) => FundKeepsAttempt(c, p, tx.caller, tx.now, value);
    case Transfer(value) => FundKeepsAttempt(c, p, tx.caller, tx.now, value);
    case TopUp(accepted) => TopUpKeepsAttempt(c, p, tx.caller, tx.now, accepted);
    case RequestExit(value, maxFee, fee, accepted, paid) =>
      ExitKeepsAttempt(c, p, tx.caller, tx.now, value, maxFee, fee, accepted, paid);
    case RefundTo(recipient, paid) => PayoutsKeepAttempt(c, p, tx.caller, recipient, paid);
    case ClaimTo(recipient, paid) => PayoutsKeepAttempt(c, p, tx.caller, recipient, paid);
    case Force(_) =>
    case _ =>
  }

  lemma NextAttempt(c: Config, p: Pool, tx: Tx)
    requires Inv(c, p)
    ensures var q := Next(c, p, tx);
            || (q.attempt == p.attempt && (Live(q) ==> Live(p)) && (Live(p) && !Live(q) <==> Closes(c, p, tx)))
            || (q.attempt == p.attempt + 1 && !Live(p) && Live(q) && AllZero(p.active) && q.active == p.active
                && !Closes(c, p, tx))
  {
    hide OpenEffect, CloseEffect, CommitEffect, FundEffect, TransferEffect, TopUpEffect, ExitEffect, RefundEffect;
    hide ClaimEffect;
    hide Agreement, Credit, Total;
    if EffectOf(c, p, tx).Effect? {
      if tx.action.Open? {
        OpenOnAttempt(c, p, tx.caller, tx.now, tx.action.addresses, tx.action.targets);
      } else if tx.action.Close? {
        CloseOnAttempt(p, tx.now);
      } else {
        OthersOnAttempt(c, p, tx);
      }
    }
  }

  /** Refund credits come from closing alone. */
  lemma OnlyClosingGivesBack(c: Config, p: Pool, tx: Tx, a: Address)
    requires !Closes(c, p, tx)
    ensures Logged(LogsOf(c, p, tx), CreditedBackKind, Some(a)) == 0
  {
    if !tx.action.Close? {
      EffectGivesNothingBack(c, p, tx);
    }
    hide EffectOf, Logged;
    NothingGivenBack(LogsOf(c, p, tx), a);
  }

  lemma EffectGivesNothingBack(c: Config, p: Pool, tx: Tx)
    requires !tx.action.Close?
    ensures EffectOf(c, p, tx).Effect? ==> forall l :: l in EffectOf(c, p, tx).logs ==> !l.RefundCredited?
  {
    hide CloseEffect, AttemptError, Assigned, CreditsUpTo, CreditTotalUpTo, Remaining, Claimable;
  }

  lemma {:induction false} NothingGivenBack(logs: seq<Log>, a: Address)
    requires forall i :: 0 <= i < |logs| ==> !logs[i].RefundCredited?
    ensures Logged(logs, CreditedBackKind, Some(a)) == 0
  {
    if logs != [] {
      NothingGivenBack(logs[..|logs| - 1], a);
    }
  }

  // ---------------------------------------------------------------- runs

  /** Attempt `k` balances for account `a`: all that went in came back, or is still active in it. */
  ghost predicate Balances(p: Pool, logs: seq<Log>, k: nat, a: Address) {
    && FundedIn(logs, k, a) == CreditedBackFrom(logs, k, a) + (if k == p.attempt then At(p.active, a) else 0)
    && (k > p.attempt || (k == p.attempt && Live(p)) ==> CreditedBackFrom(logs, k, a) == 0)
  }

  lemma StepBalances(c: Config, p: Pool, logs: seq<Log>, tx: Tx, k: nat, a: Address)
    requires Inv(c, p) && Balances(p, logs, k, a)
    ensures Balances(Next(c, p, tx), logs + LogsOf(c, p, tx), k, a)
  {
    var q, more := Next(c, p, tx), LogsOf(c, p, tx);
    StepMoves(c, p, tx);
    assert AccountMoved(p, q, more, a);
    StepLogsOfAttempt(c, p, tx);
    AttemptOfLogs(more, p.attempt, k, a);
    AttemptConcat(logs, more, k, a);
    NextAttempt(c, p, tx);
    if !Closes(c, p, tx) {
      OnlyClosingGivesBack(c, p, tx, a);
    }
    hide Inv, Next, LogsOf, Logged, FundedIn, CreditedBackFrom, AllOf, Closes;
  }

  lemma {:induction false} RunBalances(c: Config, p: Pool, txs: seq<Tx>, logs: seq<Log>, k: nat, a: Address)
    requires Inv(c, p) && Balances(p, logs, k, a)
    ensures Balances(After(c, p, txs), logs + Trail(c, p, txs), k, a)
    decreases |txs|
  {
    hide Inv, Next, LogsOf, Balances;
    if txs == [] {
      assert logs + Trail(c, p, txs) == logs;
    } else {
      var q, more := Next(c, p, txs[0]), LogsOf(c, p, txs[0]);
      StepBalances(c, p, logs, txs[0], k, a);
      StepKeepsInv(c, p, txs[0]);
      RunBalances(c, q, txs[1..], logs + more, k, a);
      assert logs + Trail(c, p, txs) == (logs + more) + Trail(c, q, txs[1..]);
    }
  }

  /**
   Attempt by attempt and account by account, over any run since deployment: a closed attempt is
   credited back to the wei, and the current one holds exactly what was put into it.
   */
  lemma EachAttemptIsConserved(c: Config, prefunded: nat, txs: seq<Tx>, k: nat, a: Address)
    ensures var p, logs := After(c, FirstLedger(prefunded), txs), Trail(c, FirstLedger(prefunded), txs);
            && FundedIn(logs, k, a) == CreditedBackFrom(logs, k, a) + (if k == p.attempt then At(p.active, a) else 0)
            && (k == p.attempt && Live(p) ==> CreditedBackFrom(logs, k, a) == 0)
  {
    hide Inv, After, Trail;
    DeployedHoldsInv(c, prefunded);
    RunBalances(c, FirstLedger(prefunded), txs, [], k, a);
    assert [] + Trail(c, FirstLedger(prefunded), txs) == Trail(c, FirstLedger(prefunded), txs);
  }

  // ---------------------------------------------------------------- all closed attempts together

  /** What the account put into the attempts before the n-th, over all of them. */
  function FundedBefore(logs: seq<Log>, n: nat, a: Address): nat {
    if n == 0 then 0 else FundedBefore(logs, n - 1, a) + FundedIn(logs, n - 1, a)
  }

  function CreditedBackBefore(logs: seq<Log>, n: nat, a: Address): nat {
    if n == 0 then 0 else CreditedBackBefore(logs, n - 1, a) + CreditedBackFrom(logs, n - 1, a)
  }

  lemma {:induction false} CreditedBackConcat(logs: seq<Log>, more: seq<Log>, attempt: nat, n: nat, a: Address)
    requires AllOf(more, attempt)
    ensures CreditedBackBefore(logs + more, n, a)
         == CreditedBackBefore(logs, n, a) + if attempt < n then Logged(more, CreditedBackKind, Some(a)) else 0
  {
    hide AllOf, CreditedBackFrom, Logged;
    if n > 0 {
      CreditedBackConcat(logs, more, attempt, n - 1, a);
      AttemptConcat(logs, more, n - 1, a);
      AttemptOfLogs(more, attempt, n - 1, a);
    }
  }

  ghost predicate AllBalance(p: Pool, logs: seq<Log>, a: Address) {
    && (forall k: nat :: Balances(p, logs, k, a))
    && CreditedBackBefore(logs, p.attempt + 1, a) == Logged(logs, CreditedBackKind, Some(a))
  }

  lemma StepAllBalance(c: Config, p: Pool, logs: seq<Log>, tx: Tx, a: Address)
    requires Inv(c, p) && AllBalance(p, logs, a)
    ensures AllBalance(Next(c, p, tx), logs + LogsOf(c, p, tx), a)
  {
    hide Inv, Next, LogsOf, Logged, FundedIn, CreditedBackFrom, AllOf, Closes, CreditedBackBefore, Balances;
    var q, more := Next(c, p, tx), LogsOf(c, p, tx);
    forall k: nat ensures Balances(q, logs + more, k, a) {
      StepBalances(c, p, logs, tx, k, a);
    }
    StepLogsOfAttempt(c, p, tx);
    LoggedConcat(logs, more, CreditedBackKind, Some(a));
    CreditedBackConcat(logs, more, p.attempt, p.attempt + 1, a);
    NextAttempt(c, p, tx);
    if q.attempt != p.attempt {
      assert Balances(q, logs + more, q.attempt, a);
      NothingBackYet(q, logs + more, a);
    }
  }

  lemma NothingBackYet(q: Pool, logs: seq<Log>, a: Address)
    requires Live(q) && Balances(q, logs, q.attempt, a)
    ensures CreditedBackBefore(logs, q.attempt + 1, a) == CreditedBackBefore(logs, q.attempt, a)
  {
    hide FundedIn, CreditedBackFrom;
  }

  lemma {:induction false} RunAllBalance(c: Config, p: Pool, txs: seq<Tx>, logs: seq<Log>, a: Address)
    requires Inv(c, p) && AllBalance(p, logs, a)
    ensures AllBalance(After(c, p, txs), logs + Trail(c, p, txs), a)
    decreases |txs|
  {
    hide Inv, Next, LogsOf, AllBalance;
    if txs == [] {
      assert logs + Trail(c, p, txs) == logs;
    } else {
      var q, more := Next(c, p, txs[0]), LogsOf(c, p, txs[0]);
      StepAllBalance(c, p, logs, txs[0], a);
      StepKeepsInv(c, p, txs[0]);
      RunAllBalance(c, q, txs[1..], logs + more, a);
      assert logs + Trail(c, p, txs) == (logs + more) + Trail(c, q, txs[1..]);
    }
  }

  /** The first attempt that is not closed yet, whether or not it has been opened. */
  function FirstNotClosed(p: Pool): nat {
    p.attempt + if Live(p) then 0 else 1
  }

  lemma {:induction false} ClosedBalances(p: Pool, logs: seq<Log>, n: nat, a: Address)
    requires AllBalance(p, logs, a) && n <= FirstNotClosed(p) && (!Live(p) ==> At(p.active, a) == 0)
    ensures FundedBefore(logs, n, a) == CreditedBackBefore(logs, n, a)
  {
    if n > 0 {
      ClosedBalances(p, logs, n - 1, a);
      assert Balances(p, logs, n - 1, a);
      hide FundedIn, CreditedBackFrom, Logged;
    }
  }

  /**
   What was refunded and what is still refundable to an account is the sum of what it put into all
   closed attempts.
   */
  lemma RefundsAreClosedFunding(c: Config, prefunded: nat, txs: seq<Tx>, a: Address)
    ensures var p, logs := After(c, FirstLedger(prefunded), txs), Trail(c, FirstLedger(prefunded), txs);
            At(p.refundable, a) + Logged(logs, RefundedKind, Some(a)) == FundedBefore(logs, FirstNotClosed(p), a)
  {
    var p, logs := After(c, FirstLedger(prefunded), txs), Trail(c, FirstLedger(prefunded), txs);
    DeployedHoldsInv(c, prefunded);
    NothingLogged(FirstLedger(prefunded), a);
    RunAllBalance(c, FirstLedger(prefunded), txs, [], a);
    assert [] + logs == logs;
    RunSinceDeployment(c, prefunded, txs);
    if !Live(p) {
      IdleHoldsNothing(c, p, a);
    }
    ClosedBalances(p, logs, FirstNotClosed(p), a);
    assert Balances(p, logs, p.attempt, a);
    FundingIsNeverLost(c, prefunded, txs, a);
    hide Inv, After, Trail, Logged, FundedIn, CreditedBackFrom, FundedBefore;
    assert CreditedBackBefore(logs, p.attempt + 1, a)
           == CreditedBackBefore(logs, p.attempt, a) + CreditedBackFrom(logs, p.attempt, a);
  }

  lemma NothingLogged(p: Pool, a: Address)
    requires p == FirstLedger(p.balance)
    ensures AllBalance(p, [], a)
  {
    forall k: nat ensures Balances(p, [], k, a) {
    }
  }

  lemma IdleHoldsNothing(c: Config, p: Pool, a: Address)
    requires Inv(c, p) && !Live(p)
    ensures At(p.active, a) == 0
  {
  }

  /**
   No other attempt's funding enters a credit: once topped up, an account is credited with exactly
   what it put into the attempt that topped up, the operator with the predeposit besides.
   */
  lemma CreditIsOwnFunding(c: Config, prefunded: nat, txs: seq<Tx>, a: Address)
    requires After(c, FirstLedger(prefunded), txs).stage.ToppedUp?
    ensures var p, logs := After(c, FirstLedger(prefunded), txs), Trail(c, FirstLedger(prefunded), txs);
            At(p.credited, a) == FundedIn(logs, p.attempt, a) + if a == c.operator then PREDEPOSIT else 0
  {
    var p := After(c, FirstLedger(prefunded), txs);
    RunSinceDeployment(c, prefunded, txs);
    EachAttemptIsConserved(c, prefunded, txs, p.attempt, a);
    FullAttemptHoldsTargets(c, p, a);
    hide Inv, After, Trail, FundedIn, CreditedBackFrom;
  }

  lemma FullAttemptHoldsTargets(c: Config, p: Pool, a: Address)
    requires Inv(c, p) && p.stage.ToppedUp?
    ensures At(p.credited, a) == At(p.active, a) + if a == c.operator then PREDEPOSIT else 0
  {
    hide Total;
    FullExactlyWhenNothingRemains(c, p);
    assert Remaining(c, p, a) == 0 && At(p.active, a) <= Cap(c, p.target, a);
    assert At(p.credited, a) == At(p.target, a);
  }
}
