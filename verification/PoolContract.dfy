/**
 The pool contract in its own form: storage that functions update in place, loops over the
 participant list, and reverts that undo whatever was written.

 Every entry point is proved to do what `Step` does, so all theorems about runs of steps are
 theorems about this contract.
 */
module PoolContract {
  import opened Amounts
  import opened Options
  import opened PoolLedger
  import opened PoolInvariant

  /** The index mapping is nonzero exactly at the listed addresses. */
  ghost predicate Marks(index: map<Address, nat>, listed: seq<Address>) {
    forall a :: At(index, a) != 0 <==> a in listed
  }

  lemma FirstUnmarked(index: map<Address, nat>, listed: seq<Address>)
    requires listed != [] && Distinct(listed) && Marks(index, listed)
    ensures Marks(index[listed[0] := 0], listed[1..]) && Distinct(listed[1..])
  {
    forall a ensures At(index[listed[0] := 0], a) != 0 <==> a in listed[1..] {
      assert At(index, a) != 0 <==> a in listed;
      assert a in listed <==> a == listed[0] || a in listed[1..];
    }
  }

  lemma ClosedUpToNext(p: Pool, i: nat)
    requires i < |p.participants|
    ensures ClosedUpTo(p, i + 1) == ClosedOne(ClosedUpTo(p, i), p.participants[i])
    ensures ClosedUpToLogs(p, i + 1) == ClosedUpToLogs(p, i) + ClosedOneLogs(ClosedUpTo(p, i), p.participants[i])
  {
  }

  lemma ConcatAssociates(a: seq<Log>, b: seq<Log>, c: seq<Log>)
    ensures (a + b) + c == a + (b + c)
  {
  }

  /** What one more turn of the closing loop does to the ledger, the logs and the index. */
  lemma CloseNext(p: Pool, i: nat, index: map<Address, nat>, logged: seq<Log>)
    requires i < |p.participants| && Distinct(p.participants[i..]) && Marks(index, p.participants[i..])
    ensures Distinct(p.participants[i + 1..]) && Marks(index[p.participants[i] := 0], p.participants[i + 1..])
    ensures ClosedUpTo(p, i + 1) == ClosedOne(ClosedUpTo(p, i), p.participants[i])
    ensures (logged + ClosedUpToLogs(p, i)) + ClosedOneLogs(ClosedUpTo(p, i), p.participants[i])
         == logged + ClosedUpToLogs(p, i + 1)
  {
    FirstUnmarked(index, p.participants[i..]);
    assert p.participants[i..][1..] == p.participants[i + 1..];
    ClosedUpToNext(p, i);
    hide ClosedUpTo, ClosedUpToLogs, ClosedOneLogs, ClosedOne;
    ConcatAssociates(logged, ClosedUpToLogs(p, i), ClosedOneLogs(ClosedUpTo(p, i), p.participants[i]));
  }

  /** Where the pool is in its lifecycle, and what it has committed to. */
  datatype Lifecycle = Lifecycle(stage: Stage, attempt: nat, deadline: nat, topUpSubmitted: bool, pubkey: seq<bv8>)

  /** The accounting totals, in wei. */
  datatype Totals = Totals(active: nat, refundable: nat, refunded: nat, credited: nat, claimed: nat)

  datatype ExitRecord = ExitRecord(attempts: nat, lastFeePaid: nat, lastAt: nat)

  class ValidatorFundingPool {
    const config: Config

    var lifecycle: Lifecycle
    var balance: nat
    var totals: Totals
    var exits: ExitRecord
    var participants: seq<Address>
    var participantIndexPlusOne: map<Address, nat>
    var fundingTargetWeiOf: map<Address, nat>
    var activeFundedWeiOf: map<Address, nat>
    var refundableWeiOf: map<Address, nat>
    var creditedWeiOf: map<Address, nat>
    var claimedWeiOf: map<Address, nat>
    var events: seq<Log>

    /** The index mapping marks exactly the listed participants, each listed once. */
    ghost predicate Valid()
      reads this
    {
      Distinct(participants) && Marks(participantIndexPlusOne, participants)
    }

    function Ledger(): Pool
      reads this
    {
      Pool(lifecycle.stage, lifecycle.attempt, lifecycle.deadline, balance,
           totals.active, totals.refundable, totals.refunded, totals.credited, totals.claimed,
           lifecycle.topUpSubmitted, lifecycle.pubkey, exits.attempts, exits.lastFeePaid, exits.lastAt,
           participants, fundingTargetWeiOf, activeFundedWeiOf, refundableWeiOf, creditedWeiOf, claimedWeiOf)
    }

    /** The call ended as `outcome` says: its ledger and its logs, or the state before it and an error. */
    ghost predicate Ended(before: Pool, logged: seq<Log>, outcome: Outcome, error: Option<Error>)
      reads this
    {
      Valid() && match outcome
                 case Done(q, logs) => error == None && Ledger() == q && events == logged + logs
                 case Reverted(e) => error == Some(e) && Ledger() == before && events == logged
    }

    constructor (config: Config)
      ensures Valid() && this.config == config
      ensures Ledger() == DEPLOYED && events == []
    {
      this.config := config;
      lifecycle, balance := Lifecycle(Uninitialized, 0, 0, false, []), 0;
      totals, exits := Totals(0, 0, 0, 0, 0), ExitRecord(0, 0, 0);
      participants, participantIndexPlusOne := [], map[];
      fundingTargetWeiOf, activeFundedWeiOf, refundableWeiOf := map[], map[], map[];
      creditedWeiOf, claimedWeiOf := map[], map[];
      events := [];
    }

    /** What a revert does to storage, balance and logs. */
    method Revert(before: Pool, index: map<Address, nat>, logged: seq<Log>)
      modifies this
      ensures Ledger() == before && participantIndexPlusOne == index && events == logged
    {
      lifecycle := Lifecycle(before.stage, before.attempt, before.deadline, before.topUpSubmitted, before.pubkey);
      totals := Totals(before.totalActive, before.totalRefundable, before.totalRefunded, before.totalCredited,
                       before.totalClaimed);
      exits := ExitRecord(before.exitAttempts, before.lastExitFee, before.lastExitAt);
      balance, participants, participantIndexPlusOne, events := before.balance, before.participants, index, logged;
      fundingTargetWeiOf, activeFundedWeiOf, refundableWeiOf := before.target, before.active, before.refundable;
      creditedWeiOf, claimedWeiOf := before.credited, before.claimed;
    }

    function FundingRemainingWeiOf(participant: Address): (r: nat)
      reads this
      ensures r == Remaining(config, Ledger(), participant)
    {
      var target := At(fundingTargetWeiOf, participant);
      if target == 0 then 0
      else
        var required := if participant == config.operator then target - PREDEPOSIT else target;
        var funded := At(activeFundedWeiOf, participant);
        if required <= funded then 0 else required - funded
    }

    /** Emits the snapshot of the current state, or reports the underflow in its proceeds figure. */
    method EmitAccountingSnapshot() returns (error: Option<Error>)
      modifies this`events
      ensures error == if Gross(Ledger()) < 0 then Some(Panic) else None
      ensures events == old(events) + if Gross(Ledger()) < 0 then [] else [SnapshotOf(Ledger())]
    {
      var gross := balance + totals.claimed - totals.refundable;
      if gross < 0 {
        return Some(Panic);
      }
      events := events + [AccountingSnapshot(lifecycle.stage, lifecycle.attempt, balance, totals.active,
                                             totals.refundable, totals.refunded, totals.credited, totals.claimed,
                                             gross)];
      return None;
    }

    /** The snapshot closing a call that so far had the effect `e`; an underflow undoes the call. */
    method Finish(before: Pool, index: map<Address, nat>, logged: seq<Log>, ghost e: Effect)
      returns (error: Option<Error>)
      requires Valid() && e.Effect? && e.snapshot && Ledger() == e.pool && events == logged + e.logs
      requires Distinct(before.participants) && Marks(index, before.participants)
      modifies this
      ensures Ended(before, logged, Settled(e), error)
    {
      error := EmitAccountingSnapshot();
      if error.Some? {
        Revert(before, index, logged);
      }
    }

    method CommitAndPredeposit(sender: Address, value: nat, now: nat, data: ValidatorData, accepted: bool)
      returns (error: Option<Error>)
      requires Valid()
      modifies this
      ensures Ended(old(Ledger()), old(events),
                    Step(config, old(Ledger()), Tx(now, sender, Commit(value, data, accepted))), error)
    {
      hide Distinct, AttemptError, Assigned, ClaimEffect, OpenEffect, CloseEffect, TopUpEffect, FundEffect;
      hide TransferEffect, ExitEffect, RefundEffect;
      var before, index, logged := Ledger(), participantIndexPlusOne, events;
      if sender != config.operator { return Some(NotOperator); }
      if lifecycle.stage != Uninitialized { return Some(InvalidState); }
      if value != PREDEPOSIT { return Some(InvalidPredepositValue); }
      balance := balance + value;
      error := DataError(data.pubkey, data.predepositSignature, data.predepositRoot);
      if error.None? {
        error := DataError(data.pubkey, data.topUpSignature, data.topUpRoot);
      }
      if error.None? {
        lifecycle := lifecycle.(pubkey := data.pubkey);
        if !accepted { error := Some(DepositRejected); }
      }
      if error.Some? {
        Revert(before, index, logged);
        return;
      }
      balance := balance - PREDEPOSIT;
      lifecycle := lifecycle.(stage := Predeposited);
      events := events + [ValidatorPredeposited];
      error := Finish(before, index, logged, EffectOf(config, before, Tx(now, sender, Commit(value, data, accepted))));
    }

    /** Writes the attempt entry by entry until an entry or the final sums are refused. */
    method SetFundingAttempt(addresses: seq<Address>, targets: seq<nat>) returns (error: Option<Error>)
      requires Valid()
      modifies this`participants, this`participantIndexPlusOne, this`fundingTargetWeiOf
      ensures error == AttemptError(config, old(Ledger()), addresses, targets)
      ensures error == None ==> Valid() && participants == old(participants) + addresses
                                && |addresses| == |targets|
                                && fundingTargetWeiOf ==
                                   Assigned(old(fundingTargetWeiOf), addresses, targets, |addresses|)
    {
      if |addresses| == 0 { return Some(EmptyParticipantSet); }
      if |addresses| > MAX_PARTICIPANTS { return Some(TooManyParticipants); }
      if |addresses| != |targets| { return Some(InvalidFundingTarget); }
      var targetTotal: nat, operatorSeen := 0, false;
      var i := 0;
      while i < |addresses|
        invariant 0 <= i <= |addresses|
        invariant AttemptError(config, old(Ledger()), addresses, targets)
                  == TargetsError(config, old(Ledger()), addresses, targets, i, targetTotal, operatorSeen)
        invariant Valid() && participants == old(participants) + addresses[..i]
        invariant fundingTargetWeiOf == Assigned(old(fundingTargetWeiOf), addresses, targets, i)
      {
        var participant, target := addresses[i], targets[i];
        if participant == ZERO_ADDRESS { return Some(InvalidParticipant); }
        if At(participantIndexPlusOne, participant) != 0 { return Some(DuplicateParticipant); }
        if target == 0 { return Some(InvalidFundingTarget); }
        if participant == config.operator {
          if target < PREDEPOSIT { return Some(OperatorTargetTooSmall); }
          operatorSeen := true;
        }
        participantIndexPlusOne := participantIndexPlusOne[participant := i + 1];
        fundingTargetWeiOf := fundingTargetWeiOf[participant := target];
        participants := participants + [participant];
        if targetTotal + target > UINT256_MAX { return Some(Panic); }
        targetTotal := targetTotal + target;
        i := i + 1;
      }
      assert addresses[..i] == addresses;
      if !operatorSeen { return Some(OperatorTargetTooSmall); }
      if targetTotal != VALIDATOR_DEPOSIT { return Some(FundingTargetsDoNotMatchValidator); }
      return None;
    }

    method OpenFundingAttempt(sender: Address, now: nat, addresses: seq<Address>, targets: seq<nat>)
      returns (error: Option<Error>)
      requires Valid()
      modifies this
      ensures Ended(old(Ledger()), old(events),
                    Step(config, old(Ledger()), Tx(now, sender, Open(addresses, targets))), error)
    {
      hide Distinct, AttemptError, Assigned, ClaimEffect, CommitEffect, CloseEffect, TopUpEffect, FundEffect;
      hide TransferEffect, ExitEffect, RefundEffect;
      var before, index, logged := Ledger(), participantIndexPlusOne, events;
      if sender != config.operator { return Some(NotOperator); }
      if lifecycle.stage != Predeposited { return Some(InvalidState); }
      error := SetFundingAttempt(addresses, targets);
      if error.None? && now + config.window > UINT256_MAX {
        error := Some(Panic);
      }
      if error.Some? {
        Revert(before, index, logged);
        return;
      }
      lifecycle := lifecycle.(deadline := now + config.window);
      lifecycle := lifecycle.(attempt := lifecycle.attempt + 1);
      lifecycle := lifecycle.(stage := Funding);
      events := events + [FundingAttemptOpened(lifecycle.attempt, lifecycle.deadline)];
      error := Finish(before, index, logged, EffectOf(config, before, Tx(now, sender, Open(addresses, targets))));
    }

    method FundFor(participant: Address, amount: nat, now: nat) returns (error: Option<Error>)
      requires Valid()
      modifies this
      ensures Ended(old(Ledger()), old(events), Settled(FundEffect(config, old(Ledger()), participant, now, amount)),
                    error)
    {
      hide Distinct, CreditsUpTo, CreditTotalUpTo, ClosedUpTo, ClosedUpToLogs, AttemptError, Assigned;
      var before, index, logged := Ledger(), participantIndexPlusOne, events;
      if lifecycle.stage != Funding { return Some(InvalidState); }
      if now > lifecycle.deadline { return Some(FundingClosed); }
      if At(participantIndexPlusOne, participant) == 0 { return Some(NotParticipant); }
      if amount == 0 { return Some(ZeroAmount); }
      if amount > FundingRemainingWeiOf(participant) { return Some(FundingCapExceeded); }
      balance := balance + amount;
      var newFunded := At(activeFundedWeiOf, participant) + amount;
      activeFundedWeiOf := activeFundedWeiOf[participant := newFunded];
      totals := totals.(active := totals.active + amount);
      events := events + [ParticipantFunded(lifecycle.attempt, participant, amount, newFunded, totals.active)];
      error := Finish(before, index, logged, FundEffect(config, before, participant, now, amount));
    }

    method Fund(sender: Address, value: nat, now: nat) returns (error: Option<Error>)
      requires Valid()
      modifies this
      ensures Ended(old(Ledger()), old(events), Step(config, old(Ledger()), Tx(now, sender, Action.Fund(value))), error)
    {
      error := FundFor(sender, value, now);
    }

    method Receive(sender: Address, value: nat, now: nat) returns (error: Option<Error>)
      requires Valid()
      modifies this
      ensures Ended(old(Ledger()), old(events), Step(config, old(Ledger()), Tx(now, sender, Transfer(value))), error)
    {
      if lifecycle.stage == Funding {
        error := FundFor(sender, value, now);
        return;
      }
      if lifecycle.stage == ToppedUp {
        balance := balance + value;
        events := events + [EthReceivedViaCall(sender, value)];
        return None;
      }
      return Some(InvalidState);
    }

    /** One turn of the closing loop. */
    method RefundParticipant(participant: Address)
      modifies this`activeFundedWeiOf, this`refundableWeiOf, this`totals, this`fundingTargetWeiOf
      modifies this`participantIndexPlusOne, this`events
      ensures Ledger() == ClosedOne(old(Ledger()), participant)
      ensures events == old(events) + ClosedOneLogs(old(Ledger()), participant)
      ensures participantIndexPlusOne == old(participantIndexPlusOne)[participant := 0]
    {
      var funded := At(activeFundedWeiOf, participant);
      if funded != 0 {
        activeFundedWeiOf := activeFundedWeiOf[participant := 0];
        var participantRefundable := At(refundableWeiOf, participant) + funded;
        refundableWeiOf := refundableWeiOf[participant := participantRefundable];
        totals := totals.(refundable := totals.refundable + funded);
        events := events + [RefundCredited(lifecycle.attempt, participant, funded, participantRefundable,
                                           totals.refundable)];
      }
      fundingTargetWeiOf := fundingTargetWeiOf[participant := 0];
      participantIndexPlusOne := participantIndexPlusOne[participant := 0];
    }

    method RefundEveryParticipant()
      requires Valid()
      modifies this`activeFundedWeiOf, this`refundableWeiOf, this`totals, this`fundingTargetWeiOf
      modifies this`participantIndexPlusOne, this`events
      ensures Ledger() == ClosedUpTo(old(Ledger()), |participants|)
      ensures events == old(events) + ClosedUpToLogs(old(Ledger()), |participants|)
      ensures Marks(participantIndexPlusOne, [])
    {
      ghost var before := Ledger();
      assert before.participants == participants;
      assert ClosedUpTo(before, 0) == before && ClosedUpToLogs(before, 0) == [];
      hide Ledger, Distinct, Marks, ClosedOne, ClosedOneLogs, ClosedUpTo, ClosedUpToLogs;
      assert participants[0..] == participants;
      var i := 0;
      while i < |participants|
        invariant 0 <= i <= |participants| == |before.participants| && participants == before.participants
        invariant Ledger() == ClosedUpTo(before, i)
        invariant events == old(events) + ClosedUpToLogs(before, i)
        invariant Distinct(participants[i..]) && Marks(participantIndexPlusOne, participants[i..])
      {
        CloseNext(before, i, participantIndexPlusOne, old(events));
        RefundParticipant(participants[i]);
        i := i + 1;
      }
    }

    method CloseExpiredFundingAttempt(sender: Address, now: nat) returns (error: Option<Error>)
      requires Valid()
      modifies this
      ensures Ended(old(Ledger()), old(events), Step(config, old(Ledger()), Tx(now, sender, Close)), error)
    {
      hide ClosedUpTo, ClosedUpToLogs, CommitEffect, OpenEffect, TopUpEffect, ExitEffect, RefundEffect, ClaimEffect;
      var before, index, logged := Ledger(), participantIndexPlusOne, events;
      if lifecycle.stage != Funding { return Some(InvalidState); }
      if now <= lifecycle.deadline { return Some(FundingStillOpen); }
      RefundEveryParticipant();
      var refunded := Ledger();
      participants := [];
      totals := totals.(active := 0);
      lifecycle := lifecycle.(deadline := 0);
      lifecycle := lifecycle.(stage := Predeposited);
      events := events + [FundingAttemptClosed(lifecycle.attempt)];
      assert Ledger() == refunded.(participants := [], totalActive := 0, deadline := 0, stage := Predeposited);
      error := Finish(before, index, logged, CloseEffect(before, now));
    }

    method CreditEveryParticipant()
      modifies this`creditedWeiOf, this`totals
      ensures creditedWeiOf == CreditsUpTo(old(Ledger()), |participants|)
      ensures totals == old(totals).(credited := CreditTotalUpTo(old(Ledger()), |participants|))
    {
      var i := 0;
      while i < |participants|
        invariant 0 <= i <= |participants|
        invariant creditedWeiOf == CreditsUpTo(old(Ledger()), i)
        invariant totals == old(totals).(credited := CreditTotalUpTo(old(Ledger()), i))
      {
        var credit := At(fundingTargetWeiOf, participants[i]);
        creditedWeiOf := creditedWeiOf[participants[i] := credit];
        totals := totals.(credited := totals.credited + credit);
        i := i + 1;
      }
    }

    method TopUpValidator(sender: Address, now: nat, accepted: bool) returns (error: Option<Error>)
      requires Valid()
      modifies this
      ensures Ended(old(Ledger()), old(events), Step(config, old(Ledger()), Tx(now, sender, TopUp(accepted))), error)
    {
      hide Distinct, CreditsUpTo, CreditTotalUpTo, AttemptError, Assigned, CommitEffect, OpenEffect, CloseEffect;
      hide ExitEffect, RefundEffect, ClaimEffect;
      var before, index, logged := Ledger(), participantIndexPlusOne, events;
      if sender != config.operator { return Some(NotOperator); }
      if lifecycle.stage != Funding { return Some(InvalidState); }
      if now > lifecycle.deadline { return Some(FundingClosed); }
      if totals.active != TOP_UP { return Some(FundingIncomplete); }
      if balance < TOP_UP + totals.refundable { return Some(FundingIncomplete); }
      if lifecycle.topUpSubmitted { return Some(InvalidState); }
      CreditEveryParticipant();
      if totals.credited != VALIDATOR_DEPOSIT {
        error := Some(FundingTargetsDoNotMatchValidator);
      } else {
        lifecycle := lifecycle.(topUpSubmitted := true);
        error := if accepted then None else Some(DepositRejected);
      }
      if error.Some? {
        Revert(before, index, logged);
        return;
      }
      balance := balance - TOP_UP;
      lifecycle := lifecycle.(stage := ToppedUp);
      events := events + [ValidatorTopUpSubmitted, PoolToppedUp];
      error := Finish(before, index, logged, TopUpEffect(config, before, sender, now, accepted));
    }

    /** The fee leaves for the withdrawal-request contract and the rest of the value goes back. */
    method PayExitFee(value: nat, fee: nat, now: nat, accepted: bool, paid: bool) returns (error: Option<Error>)
      requires fee <= value
      modifies this`balance, this`exits
      ensures error == if !accepted then Some(ExitRequestFailed)
                       else if value != fee && !paid then Some(EthPayoutFailed)
                       else None
      ensures error == None ==> balance == old(balance) && exits == ExitRecord(old(exits).attempts + 1, fee, now)
    {
      balance := balance + value;
      if !accepted { return Some(ExitRequestFailed); }
      balance := balance - fee;
      exits := ExitRecord(exits.attempts + 1, fee, now);
      var refundAmount := value - fee;
      if refundAmount != 0 {
        if !paid { return Some(EthPayoutFailed); }
        balance := balance - refundAmount;
      }
      return None;
    }

    method RequestExit(sender: Address, value: nat, now: nat, maxFee: nat, fee: Option<nat>, accepted: bool, paid: bool)
      returns (error: Option<Error>)
      requires Valid()
      modifies this
      ensures Ended(old(Ledger()), old(events),
                    Step(config, old(Ledger()),
                         Tx(now, sender, Action.RequestExit(value, maxFee, fee, accepted, paid))), error)
    {
      hide Distinct, AttemptError, Assigned, CommitEffect, OpenEffect, CloseEffect, TopUpEffect, FundEffect;
      hide TransferEffect, RefundEffect, ClaimEffect;
      var before, index, logged := Ledger(), participantIndexPlusOne, events;
      if |lifecycle.pubkey| != PUBKEY_LENGTH { return Some(InvalidState); }
      if sender != config.operator && At(creditedWeiOf, sender) == 0 { return Some(NotParticipant); }
      if fee.None? { return Some(ExitFeeReadFailed); }
      if fee.value > maxFee { return Some(ExitFeeTooHigh); }
      if value < fee.value { return Some(InsufficientExitFee); }
      error := PayExitFee(value, fee.value, now, accepted, paid);
      if error.Some? {
        Revert(before, index, logged);
        return;
      }
      events := events + [ExitRequestSubmitted(fee.value, exits.attempts)];
      return None;
    }

    method RefundTo(sender: Address, recipient: Address, now: nat, paid: bool) returns (error: Option<Error>)
      requires Valid()
      modifies this
      ensures Ended(old(Ledger()), old(events),
                    Step(config, old(Ledger()), Tx(now, sender, Action.RefundTo(recipient, paid))), error)
    {
      hide Distinct, AttemptError, Assigned, CommitEffect, OpenEffect, CloseEffect, TopUpEffect, FundEffect;
      hide TransferEffect, ExitEffect, ClaimEffect;
      var before, index, logged := Ledger(), participantIndexPlusOne, events;
      if BadRecipient(config, recipient) { return Some(InvalidRecipient); }
      var amount := At(refundableWeiOf, sender);
      if amount == 0 { return Some(NothingToRefund); }
      refundableWeiOf := refundableWeiOf[sender := 0];
      if totals.refundable < amount {
        Revert(before, index, logged);
        return Some(Panic);
      }
      totals := totals.(refundable := totals.refundable - amount);
      totals := totals.(refunded := totals.refunded + amount);
      if balance < amount || !paid {
        Revert(before, index, logged);
        return Some(EthPayoutFailed);
      }
      balance := balance - amount;
      events := events + [Refunded(sender, recipient, amount)];
      error := Finish(before, index, logged, RefundEffect(config, before, sender, recipient, paid));
    }

    method ClaimTo(sender: Address, recipient: Address, now: nat, paid: bool) returns (error: Option<Error>)
      requires Valid()
      modifies this
      ensures Ended(old(Ledger()), old(events),
                    Step(config, old(Ledger()), Tx(now, sender, Action.ClaimTo(recipient, paid))), error)
    {
      hide Distinct, AttemptError, Assigned, CommitEffect, OpenEffect, CloseEffect, TopUpEffect, FundEffect;
      hide TransferEffect, ExitEffect, RefundEffect;
      var before, index, logged := Ledger(), participantIndexPlusOne, events;
      if lifecycle.stage != ToppedUp { return Some(InvalidState); }
      if BadRecipient(config, recipient) { return Some(InvalidRecipient); }
      if At(creditedWeiOf, sender) == 0 { return Some(NothingToClaim); }
      var gross := balance + totals.claimed - totals.refundable;
      if gross < 0 || totals.credited == 0 { return Some(Panic); }
      var entitled := gross * At(creditedWeiOf, sender) / totals.credited;
      if entitled <= At(claimedWeiOf, sender) { return Some(NothingToClaim); }
      var amount := entitled - At(claimedWeiOf, sender);
      claimedWeiOf := claimedWeiOf[sender := At(claimedWeiOf, sender) + amount];
      totals := totals.(claimed := totals.claimed + amount);
      if balance < amount || !paid {
        Revert(before, index, logged);
        return Some(EthPayoutFailed);
      }
      balance := balance - amount;
      events := events + [Claimed(sender, recipient, amount)];
      error := Finish(before, index, logged, ClaimEffect(config, before, sender, recipient, paid));
    }
  }
}
