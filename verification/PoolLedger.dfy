/**
 The pool contract as a state machine on values: one transaction against one ledger.

 `Step` follows contracts/ValidatorFundingPool.sol branch by branch, in the order of its reverts.
 A reverted transaction leaves the ledger as it was and logs nothing.
 */
module PoolLedger {
  import opened Amounts
  import opened Options

  const VALIDATOR_DEPOSIT: nat := 32 * ETHER
  const PREDEPOSIT: nat := ETHER
  const TOP_UP: nat := 31 * ETHER
  const MAX_PARTICIPANTS: nat := 32
  const PUBKEY_LENGTH: nat := 48
  const SIGNATURE_LENGTH: nat := 96

  datatype Stage = Uninitialized | Predeposited | Funding | ToppedUp

  /** The immutables the ledger depends on. */
  datatype Config = Config(pool: Address, operator: Address, window: nat)

  /** Deposit data as the contract sees it: byte strings of some length and two roots. */
  datatype ValidatorData = ValidatorData(
    pubkey: seq<bv8>, predepositSignature: seq<bv8>, predepositRoot: nat,
    topUpSignature: seq<bv8>, topUpRoot: nat)

  datatype Pool = Pool(
    stage: Stage, attempt: nat, deadline: nat, balance: nat,
    totalActive: nat, totalRefundable: nat, totalRefunded: nat,
    totalCredited: nat, totalClaimed: nat,
    topUpSubmitted: bool, pubkey: seq<bv8>,
    exitAttempts: nat, lastExitFee: nat, lastExitAt: nat,
    participants: seq<Address>,
    target: map<Address, nat>, active: map<Address, nat>, refundable: map<Address, nat>,
    credited: map<Address, nat>, claimed: map<Address, nat>)

  const DEPLOYED: Pool :=
    Pool(Uninitialized, 0, 0, 0, 0, 0, 0, 0, 0, false, [], 0, 0, 0, [],
         map[], map[], map[], map[], map[])

  datatype Error =
    | Panic | InvalidState | NotOperator | NotParticipant | InvalidPredepositValue
    | InvalidPubkey | InvalidSignature | InvalidDepositDataRoot | DepositRejected
    | EmptyParticipantSet | TooManyParticipants | InvalidParticipant | DuplicateParticipant
    | InvalidFundingTarget | OperatorTargetTooSmall | FundingTargetsDoNotMatchValidator
    | FundingClosed | FundingStillOpen | ZeroAmount | FundingCapExceeded | FundingIncomplete
    | ExitFeeReadFailed | ExitFeeTooHigh | InsufficientExitFee | ExitRequestFailed
    | InvalidRecipient | NothingToRefund | NothingToClaim | EthPayoutFailed | ReentrantCall

  datatype Log =
    | ValidatorPredeposited
    | FundingAttemptOpened(attempt: nat, deadline: nat)
    | ParticipantFunded(attempt: nat, participant: Address, amount: nat,
                        participantTotal: nat, attemptTotal: nat)
    | RefundCredited(attempt: nat, participant: Address, amount: nat,
                     participantTotal: nat, totalRefundable: nat)
    | FundingAttemptClosed(attempt: nat)
    | Refunded(participant: Address, recipient: Address, amount: nat)
    | ValidatorTopUpSubmitted
    | PoolToppedUp
    | EthReceivedViaCall(sender: Address, amount: nat)
    | AccountingSnapshot(stage: Stage, attempt: nat, balance: nat, totalActive: nat,
                         totalRefundable: nat, totalRefunded: nat, totalCredited: nat,
                         totalClaimed: nat, gross: nat)
    | Claimed(participant: Address, recipient: Address, amount: nat)
    | ExitRequestSubmitted(feePaid: nat, attempt: nat)

  /**
   What a transaction asks for, with the answers of the contracts the pool calls: whether the
   deposit contract and the withdrawal-request contract accept, which fee the latter reports, and
   whether the receiver of a payment accepts it. `Force` is ETH that arrives with no call.
   */
  datatype Action =
    | Commit(value: nat, data: ValidatorData, accepted: bool)
    | Open(addresses: seq<Address>, targets: seq<nat>)
    | Fund(value: nat)
    | Transfer(value: nat)
    | Close
    | TopUp(accepted: bool)
    | RequestExit(value: nat, maxFee: nat, fee: Option<nat>, accepted: bool, paid: bool)
    | RefundTo(recipient: Address, paid: bool)
    | ClaimTo(recipient: Address, paid: bool)
    | Force(value: nat)

  datatype Tx = Tx(now: nat, caller: Address, action: Action)

  /** What a function body did before its closing snapshot, if it emits one. */
  datatype Effect = Effect(pool: Pool, logs: seq<Log>, snapshot: bool) | Refused(error: Error)

  datatype Outcome = Done(pool: Pool, logs: seq<Log>) | Reverted(error: Error)

  // ---------------------------------------------------------------- views

  /** `grossPoolProceeds`, before the check that the subtraction does not underflow. */
  function Gross(p: Pool): int {
    p.balance + p.totalClaimed - p.totalRefundable
  }

  function Entitled(gross: nat, credit: nat): nat {
    gross * credit / VALIDATOR_DEPOSIT
  }

  /** `fundingRemainingWeiOf`; negative intermediate values revert in the contract. */
  function Remaining(c: Config, p: Pool, a: Address): nat {
    var target := At(p.target, a);
    var required := target - (if a == c.operator then PREDEPOSIT else 0);
    if target == 0 || required <= At(p.active, a) then 0 else required - At(p.active, a)
  }

  function Claimable(p: Pool, a: Address): nat {
    var credit := At(p.credited, a);
    if !p.stage.ToppedUp? || credit == 0 || Gross(p) < 0 || p.totalCredited == 0 then 0
    else
      var entitled := Gross(p) * credit / p.totalCredited;
      if entitled <= At(p.claimed, a) then 0 else entitled - At(p.claimed, a)
  }

  function SnapshotOf(p: Pool): Log
    requires Gross(p) >= 0
  {
    AccountingSnapshot(p.stage, p.attempt, p.balance, p.totalActive, p.totalRefundable,
                       p.totalRefunded, p.totalCredited, p.totalClaimed, Gross(p))
  }

  // ---------------------------------------------------------------- predeposit and attempts

  function DataError(pubkey: seq<bv8>, signature: seq<bv8>, root: nat): Option<Error> {
    if |pubkey| != PUBKEY_LENGTH then Some(InvalidPubkey)
    else if |signature| != SIGNATURE_LENGTH then Some(InvalidSignature)
    else if root == 0 then Some(InvalidDepositDataRoot)
    else None
  }

  function CommitEffect(c: Config, p: Pool, caller: Address, value: nat, d: ValidatorData, accepted: bool): Effect {
    if caller != c.operator then Refused(NotOperator)
    else if !p.stage.Uninitialized? then Refused(InvalidState)
    else if value != PREDEPOSIT then Refused(InvalidPredepositValue)
    else
      var first := DataError(d.pubkey, d.predepositSignature, d.predepositRoot);
      var second := DataError(d.pubkey, d.topUpSignature, d.topUpRoot);
      if first.Some? then Refused(first.value)
      else if second.Some? then Refused(second.value)
      else if !accepted then Refused(DepositRejected)
      else Effect(p.(stage := Predeposited, pubkey := d.pubkey), [ValidatorPredeposited], true)
  }

  /** The first complaint of `_setFundingAttempt` from entry `i` on, given what the loop carries. */
  function TargetsError(c: Config, p: Pool, addresses: seq<Address>, targets: seq<nat>,
                        i: nat, total: nat, operatorSeen: bool): Option<Error>
    requires |addresses| == |targets| && i <= |addresses|
    decreases |addresses| - i
  {
    if i == |addresses| then
      if !operatorSeen then Some(OperatorTargetTooSmall)
      else if total != VALIDATOR_DEPOSIT then Some(FundingTargetsDoNotMatchValidator)
      else None
    else
      var a, t := addresses[i], targets[i];
      if a == ZERO_ADDRESS then Some(InvalidParticipant)
      else if a in p.participants + addresses[..i] then Some(DuplicateParticipant)
      else if t == 0 then Some(InvalidFundingTarget)
      else if a == c.operator && t < PREDEPOSIT then Some(OperatorTargetTooSmall)
      else if total + t > UINT256_MAX then Some(Panic)
      else TargetsError(c, p, addresses, targets, i + 1, total + t, operatorSeen || a == c.operator)
  }

  function AttemptError(c: Config, p: Pool, addresses: seq<Address>, targets: seq<nat>): Option<Error> {
    if |addresses| == 0 then Some(EmptyParticipantSet)
    else if |addresses| > MAX_PARTICIPANTS then Some(TooManyParticipants)
    else if |addresses| != |targets| then Some(InvalidFundingTarget)
    else TargetsError(c, p, addresses, targets, 0, 0, false)
  }

  /** The target mapping after the first `n` entries have been written. */
  function Assigned(m: map<Address, nat>, addresses: seq<Address>, targets: seq<nat>, n: nat): map<Address, nat>
    requires |addresses| == |targets| && n <= |addresses|
  {
    if n == 0 then m else Assigned(m, addresses, targets, n - 1)[addresses[n - 1] := targets[n - 1]]
  }

  function OpenEffect(c: Config, p: Pool, caller: Address, now: nat, addresses: seq<Address>,
                      targets: seq<nat>): Effect {
    if caller != c.operator then Refused(NotOperator)
    else if !p.stage.Predeposited? then Refused(InvalidState)
    else
      var error := AttemptError(c, p, addresses, targets);
      if error.Some? then Refused(error.value)
      else if now + c.window > UINT256_MAX then Refused(Panic)
      else
        var q := p.(stage := Funding, attempt := p.attempt + 1, deadline := now + c.window,
                    participants := p.participants + addresses,
                    target := Assigned(p.target, addresses, targets, |addresses|));
        Effect(q, [FundingAttemptOpened(q.attempt, q.deadline)], true)
  }

  /** `_fund`, shared by `fund()` and by a plain transfer while funding is open. */
  function FundEffect(c: Config, p: Pool, caller: Address, now: nat, value: nat): Effect {
    if !p.stage.Funding? then Refused(InvalidState)
    else if now > p.deadline then Refused(FundingClosed)
    else if caller !in p.participants then Refused(NotParticipant)
    else if value == 0 then Refused(ZeroAmount)
    else if value > Remaining(c, p, caller) then Refused(FundingCapExceeded)
    else
      var funded := At(p.active, caller) + value;
      var q := p.(balance := p.balance + value, active := p.active[caller := funded],
                  totalActive := p.totalActive + value);
      Effect(q, [ParticipantFunded(p.attempt, caller, value, funded, q.totalActive)], true)
  }

  function TransferEffect(c: Config, p: Pool, caller: Address, now: nat, value: nat): Effect {
    if p.stage.Funding? then FundEffect(c, p, caller, now, value)
    else if p.stage.ToppedUp? then
      Effect(p.(balance := p.balance + value), [EthReceivedViaCall(caller, value)], false)
    else Refused(InvalidState)
  }

  /** One turn of the closing loop: active funding becomes a refund claim. */
  function ClosedOne(q: Pool, a: Address): Pool {
    var funded := At(q.active, a);
    if funded == 0 then q.(target := q.target[a := 0])
    else
      q.(active := q.active[a := 0], refundable := q.refundable[a := At(q.refundable, a) + funded],
         totalRefundable := q.totalRefundable + funded, target := q.target[a := 0])
  }

  function ClosedOneLogs(q: Pool, a: Address): seq<Log> {
    var funded := At(q.active, a);
    if funded == 0 then []
    else [RefundCredited(q.attempt, a, funded, At(q.refundable, a) + funded, q.totalRefundable + funded)]
  }

  /** The closing loop after its first `n` participants. */
  function ClosedUpTo(p: Pool, n: nat): Pool
    requires n <= |p.participants|
  {
    if n == 0 then p else ClosedOne(ClosedUpTo(p, n - 1), p.participants[n - 1])
  }

  function ClosedUpToLogs(p: Pool, n: nat): seq<Log>
    requires n <= |p.participants|
  {
    if n == 0 then []
    else ClosedUpToLogs(p, n - 1) + ClosedOneLogs(ClosedUpTo(p, n - 1), p.participants[n - 1])
  }

  function CloseEffect(p: Pool, now: nat): Effect {
    if !p.stage.Funding? then Refused(InvalidState)
    else if now <= p.deadline then Refused(FundingStillOpen)
    else
      var q := ClosedUpTo(p, |p.participants|);
      Effect(q.(participants := [], totalActive := 0, deadline := 0, stage := Predeposited),
             ClosedUpToLogs(p, |p.participants|) + [FundingAttemptClosed(p.attempt)], true)
  }

  // ---------------------------------------------------------------- top-up and exit

  /** The credit mapping after the crediting loop's first `n` participants, and the running total. */
  function CreditsUpTo(p: Pool, n: nat): map<Address, nat>
    requires n <= |p.participants|
  {
    if n == 0 then p.credited
    else CreditsUpTo(p, n - 1)[p.participants[n - 1] := At(p.target, p.participants[n - 1])]
  }

  function CreditTotalUpTo(p: Pool, n: nat): nat
    requires n <= |p.participants|
  {
    if n == 0 then p.totalCredited else CreditTotalUpTo(p, n - 1) + At(p.target, p.participants[n - 1])
  }

  function TopUpEffect(c: Config, p: Pool, caller: Address, now: nat, accepted: bool): Effect {
    if caller != c.operator then Refused(NotOperator)
    else if !p.stage.Funding? then Refused(InvalidState)
    else if now > p.deadline then Refused(FundingClosed)
    else if p.totalActive != TOP_UP then Refused(FundingIncomplete)
    else if p.balance < TOP_UP + p.totalRefundable then Refused(FundingIncomplete)
    else if p.topUpSubmitted then Refused(InvalidState)
    else
      var total := CreditTotalUpTo(p, |p.participants|);
      if total != VALIDATOR_DEPOSIT then Refused(FundingTargetsDoNotMatchValidator)
      else if !accepted then Refused(DepositRejected)
      else Effect(p.(credited := CreditsUpTo(p, |p.participants|), totalCredited := total,
                     topUpSubmitted := true, balance := p.balance - TOP_UP, stage := ToppedUp),
                  [ValidatorTopUpSubmitted, PoolToppedUp], true)
  }

  /** The fee goes to the withdrawal-request contract and the rest back to the caller. */
  function ExitEffect(c: Config, p: Pool, caller: Address, now: nat, value: nat, maxFee: nat,
                      fee: Option<nat>, accepted: bool, paid: bool): Effect {
    if |p.pubkey| != PUBKEY_LENGTH then Refused(InvalidState)
    else if caller != c.operator && At(p.credited, caller) == 0 then Refused(NotParticipant)
    else if fee.None? then Refused(ExitFeeReadFailed)
    else if fee.value > maxFee then Refused(ExitFeeTooHigh)
    else if value < fee.value then Refused(InsufficientExitFee)
    else if !accepted then Refused(ExitRequestFailed)
    else if value != fee.value && !paid then Refused(EthPayoutFailed)
    else
      Effect(p.(exitAttempts := p.exitAttempts + 1, lastExitFee := fee.value, lastExitAt := now),
             [ExitRequestSubmitted(fee.value, p.exitAttempts + 1)], false)
  }

  // ---------------------------------------------------------------- payouts

  predicate BadRecipient(c: Config, recipient: Address) {
    recipient == ZERO_ADDRESS || recipient == c.pool
  }

  function RefundEffect(c: Config, p: Pool, caller: Address, recipient: Address, paid: bool): Effect {
    var amount := At(p.refundable, caller);
    if BadRecipient(c, recipient) then Refused(InvalidRecipient)
    else if amount == 0 then Refused(NothingToRefund)
    else if p.totalRefundable < amount then Refused(Panic)
    else if p.balance < amount || !paid then Refused(EthPayoutFailed)
    else
      Effect(p.(refundable := p.refundable[caller := 0], totalRefundable := p.totalRefundable - amount,
                totalRefunded := p.totalRefunded + amount, balance := p.balance - amount),
             [Refunded(caller, recipient, amount)], true)
  }

  function ClaimEffect(c: Config, p: Pool, caller: Address, recipient: Address, paid: bool): Effect {
    if !p.stage.ToppedUp? then Refused(InvalidState)
    else if BadRecipient(c, recipient) then Refused(InvalidRecipient)
    else if At(p.credited, caller) != 0 && (Gross(p) < 0 || p.totalCredited == 0) then Refused(Panic)
    else
      var amount := Claimable(p, caller);
      if amount == 0 then Refused(NothingToClaim)
      else if p.balance < amount || !paid then Refused(EthPayoutFailed)
      else
        Effect(p.(claimed := p.claimed[caller := At(p.claimed, caller) + amount],
                  totalClaimed := p.totalClaimed + amount, balance := p.balance - amount),
               [Claimed(caller, recipient, amount)], true)
  }

  // ---------------------------------------------------------------- one transaction, many transactions

  function EffectOf(c: Config, p: Pool, tx: Tx): Effect {
    match tx.action
    case Commit(value, data, accepted) => CommitEffect(c, p, tx.caller, value, data, accepted)
    case Open(addresses, targets) => OpenEffect(c, p, tx.caller, tx.now, addresses, targets)
    case Fund(value) => FundEffect(c, p, tx.caller, tx.now, value)
    case Transfer(value) => TransferEffect(c, p, tx.caller, tx.now, value)
    case Close => CloseEffect(p, tx.now)
    case TopUp(accepted) => TopUpEffect(c, p, tx.caller, tx.now, accepted)
    case RequestExit(value, maxFee, fee, accepted, paid) =>
      ExitEffect(c, p, tx.caller, tx.now, value, maxFee, fee, accepted, paid)
    case RefundTo(recipient, paid) => RefundEffect(c, p, tx.caller, recipient, paid)
    case ClaimTo(recipient, paid) => ClaimEffect(c, p, tx.caller, recipient, paid)
    case Force(value) => Effect(p.(balance := p.balance + value), [], false)
  }

  /** Emits the closing snapshot, whose own proceeds figure reverts when it would be negative. */
  function Settled(e: Effect): Outcome {
    match e
    case Refused(error) => Reverted(error)
    case Effect(q, logs, snapshot) =>
      if !snapshot then Done(q, logs)
      else if Gross(q) < 0 then Reverted(Panic)
      else Done(q, logs + [SnapshotOf(q)])
  }

  function Step(c: Config, p: Pool, tx: Tx): Outcome {
    Settled(EffectOf(c, p, tx))
  }

  /** The ledger after one transaction, whether or not it reverted. */
  function Next(c: Config, p: Pool, tx: Tx): Pool {
    var o := Step(c, p, tx);
    if o.Done? then o.pool else p
  }

  function LogsOf(c: Config, p: Pool, tx: Tx): seq<Log> {
    var o := Step(c, p, tx);
    if o.Done? then o.logs else []
  }

  /** The ledger after a whole run of transactions, and the logs the run leaves behind. */
  function After(c: Config, p: Pool, txs: seq<Tx>): Pool
    decreases |txs|
  {
    if txs == [] then p else After(c, Next(c, p, txs[0]), txs[1..])
  }

  function Trail(c: Config, p: Pool, txs: seq<Tx>): seq<Log>
    decreases |txs|
  {
    if txs == [] then [] else LogsOf(c, p, txs[0]) + Trail(c, Next(c, p, txs[0]), txs[1..])
  }

  lemma {:induction false} AfterConcat(c: Config, p: Pool, first: seq<Tx>, second: seq<Tx>)
    ensures After(c, p, first + second) == After(c, After(c, p, first), second)
    ensures Trail(c, p, first + second) == Trail(c, p, first) + Trail(c, After(c, p, first), second)
    decreases |first|
  {
    if first == [] {
      assert first + second == second;
    } else {
      assert (first + second)[1..] == first[1..] + second;
      AfterConcat(c, Next(c, p, first[0]), first[1..], second);
    }
  }
}
