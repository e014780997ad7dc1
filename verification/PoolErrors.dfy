/** Which error a transaction reverts with: the first complaint, in the contract's order, among those true of it. */
module PoolErrors {
  import opened Amounts
  import opened Options
  import opened PoolLedger
  import opened PoolInvariant
  import opened PoolGuards

  /** What each error says of the transaction that reports it. */
  ghost predicate Holds(c: Config, p: Pool, tx: Tx, error: Error) {
    match tx.action
    case Commit(value, data, accepted) => HoldsOfCommit(c, p, tx.caller, value, data, accepted, error)
    case Open(addresses, targets) => HoldsOfOpening(c, p, tx.caller, tx.now, addresses, targets, error)
    case Fund(value) => HoldsOfFunding(c, p, tx.caller, tx.now, value, error)
    case Transfer(value) => !p.stage.ToppedUp? && HoldsOfFunding(c, p, tx.caller, tx.now, value, error)
    case Close => HoldsOfClosing(p, tx.now, error)
    case TopUp(accepted) => HoldsOfTopUp(c, p, tx.caller, tx.now, accepted, error)
    case RequestExit(value, maxFee, fee, accepted, paid) =>
      HoldsOfExit(c, p, tx.caller, value, maxFee, fee, accepted, paid, error)
    case RefundTo(recipient, paid) => HoldsOfRefund(c, p, tx.caller, recipient, paid, error)
    case ClaimTo(recipient, paid) => HoldsOfClaim(c, p, tx.caller, recipient, paid, error)
    case Force(_) => false
  }

  ghost predicate HoldsOfCommit(c: Config, p: Pool, caller: Address, value: nat, data: ValidatorData, accepted: bool,
                                error: Error) {
    match error
    case NotOperator => caller != c.operator
    case InvalidState => !p.stage.Uninitialized?
    case InvalidPredepositValue => value != 1_000_000_000_000_000_000
    case InvalidPubkey => |data.pubkey| != 48
    case InvalidSignature => |data.predepositSignature| != 96 || |data.topUpSignature| != 96
    case InvalidDepositDataRoot => data.predepositRoot == 0 || data.topUpRoot == 0
    case DepositRejected => !accepted
    case _ => false
  }

  ghost predicate HoldsOfOpening(c: Config, p: Pool, caller: Address, now: nat, addresses: seq<Address>,
                                 targets: seq<nat>, error: Error) {
    match error
    case NotOperator => caller != c.operator
    case InvalidState => !p.stage.Predeposited?
    case Panic => now + c.window > UINT256_MAX || HoldsOfList(c, addresses, targets, error)
    case _ => HoldsOfList(c, addresses, targets, error)
  }

  ghost predicate HoldsOfList(c: Config, addresses: seq<Address>, targets: seq<nat>, error: Error) {
    match error
    case EmptyParticipantSet => |addresses| == 0
    case TooManyParticipants => |addresses| > 32
    case InvalidFundingTarget => |addresses| != |targets| || 0 in targets
    case _ => HoldsOfTargets(c, addresses, targets, error)
  }

  /** What the complaints about a list of targets say of it. */
  ghost predicate HoldsOfTargets(c: Config, addresses: seq<Address>, targets: seq<nat>, error: Error) {
    match error
    case InvalidParticipant => 0 in addresses
    case DuplicateParticipant => !Distinct(addresses)
    case InvalidFundingTarget => 0 in targets
    case OperatorTargetTooSmall => c.operator !in addresses || SmallOperatorTarget(c, addresses, targets)
    case FundingTargetsDoNotMatchValidator => Sum(targets) != 32_000_000_000_000_000_000
    case Panic => Sum(targets) > UINT256_MAX
    case _ => false
  }

  ghost predicate HoldsOfFunding(c: Config, p: Pool, caller: Address, now: nat, value: nat, error: Error) {
    match error
    case InvalidState => !p.stage.Funding?
    case FundingClosed => now > p.deadline
    case NotParticipant => caller !in p.participants
    case ZeroAmount => value == 0
    case FundingCapExceeded => value > Remaining(c, p, caller)
    case _ => false
  }

  ghost predicate HoldsOfClosing(p: Pool, now: nat, error: Error) {
    match error
    case InvalidState => !p.stage.Funding?
    case FundingStillOpen => now <= p.deadline
    case _ => false
  }

  ghost predicate HoldsOfTopUp(c: Config, p: Pool, caller: Address, now: nat, accepted: bool, error: Error) {
    match error
    case NotOperator => caller != c.operator
    case InvalidState => !p.stage.Funding?
    case FundingClosed => now > p.deadline
    case FundingIncomplete => exists a :: Remaining(c, p, a) > 0
    case DepositRejected => !accepted
    case _ => false
  }

  ghost predicate HoldsOfExit(c: Config, p: Pool, caller: Address, value: nat, maxFee: nat, fee: Option<nat>,
                              accepted: bool, paid: bool, error: Error) {
    match error
    case InvalidState => p.stage.Uninitialized?
    case NotParticipant => caller != c.operator && !(p.stage.ToppedUp? && caller in p.participants)
    case ExitFeeReadFailed => fee.None?
    case ExitFeeTooHigh => fee.Some? && fee.value > maxFee
    case InsufficientExitFee => fee.Some? && fee.value > value
    case ExitRequestFailed => !accepted
    case EthPayoutFailed => fee.Some? && fee.value < value && !paid
    case _ => false
  }

  ghost predicate HoldsOfRefund(c: Config, p: Pool, caller: Address, recipient: Address, paid: bool, error: Error) {
    match error
    case InvalidRecipient => recipient == 0 || recipient == c.pool
    case NothingToRefund => At(p.refundable, caller) == 0
    case EthPayoutFailed => !paid
    case _ => false
  }

  ghost predicate HoldsOfClaim(c: Config, p: Pool, caller: Address, recipient: Address, paid: bool, error: Error) {
    match error
    case InvalidState => !p.stage.ToppedUp?
    case InvalidRecipient => recipient == 0 || recipient == c.pool
    case NothingToClaim => Claimable(p, caller) == 0
    case EthPayoutFailed => !paid
    case _ => false
  }

  ghost predicate SmallOperatorTarget(c: Config, addresses: seq<Address>, targets: seq<nat>) {
    exists i :: 0 <= i < |addresses| && i < |targets| && addresses[i] == c.operator
                && targets[i] < 1_000_000_000_000_000_000
  }

  /** The order of the checks; those made of each entry of a list in turn share a place. */
  function Place(error: Error): nat {
    match error
    case NotOperator => 0
    case InvalidState => 1
    case InvalidPredepositValue | FundingClosed | FundingStillOpen | EmptyParticipantSet | InvalidRecipient => 2
    case InvalidPubkey | TooManyParticipants | NotParticipant | NothingToRefund | NothingToClaim => 3
    case InvalidSignature | InvalidDepositDataRoot | InvalidFundingTarget | InvalidParticipant => 4
    case DuplicateParticipant | OperatorTargetTooSmall | FundingTargetsDoNotMatchValidator | Panic => 4
    case ZeroAmount | ExitFeeReadFailed | FundingIncomplete => 4
    case FundingCapExceeded | ExitFeeTooHigh | DepositRejected => 5
    case InsufficientExitFee => 6
    case ExitRequestFailed => 7
    case EthPayoutFailed => 8
    case ReentrantCall => 9
  }

  /** All that is wrong with a transaction, whether or not the contract gets as far as to check it. */
  ghost function Complaints(c: Config, p: Pool, tx: Tx): iset<Error> {
    iset e: Error | Holds(c, p, tx, e)
  }

  ghost function ListComplaints(c: Config, addresses: seq<Address>, targets: seq<nat>): iset<Error> {
    iset e: Error | HoldsOfList(c, addresses, targets, e)
  }

  ghost function TargetComplaints(c: Config, addresses: seq<Address>, targets: seq<nat>): iset<Error> {
    iset e: Error | HoldsOfTargets(c, addresses, targets, e)
  }

  /** A complaint that no other one comes before. */
  ghost predicate FirstOf(error: Error, complaints: iset<Error>) {
    error in complaints && forall e :: e in complaints ==> Place(error) <= Place(e)
  }

  /** Nothing is wrong and it is done, or it reverts with a complaint that no other one comes before. */
  ghost predicate Judged(complaints: iset<Error>, outcome: Outcome) {
    if outcome.Done? then complaints == iset{} else FirstOf(outcome.error, complaints)
  }

  lemma {:induction false} TargetsComplaint(c: Config, p: Pool, addresses: seq<Address>, targets: seq<nat>, i: nat,
                                            seen: bool, error: Error)
    requires p.participants == [] && |addresses| == |targets| && i <= |addresses|
    requires seen <==> c.operator in addresses[..i]
    requires TargetsError(c, p, addresses, targets, i, Sum(targets[..i]), seen) == Some(error)
    ensures error in TargetComplaints(c, addresses, targets)
    decreases |addresses| - i
  {
    if i == |addresses| {
      assert addresses[..i] == addresses && targets[..i] == targets;
    } else {
      var a, t := addresses[i], targets[i];
      hide Sum;
      assert p.participants + addresses[..i] == addresses[..i];
      SumOfNextPrefix(targets, i);
      SumOfPrefix(targets, i + 1);
      MemberOfNextPrefix(addresses, i, c.operator);
      if a != ZERO_ADDRESS && a !in addresses[..i] && t != 0 && !(a == c.operator && t < PREDEPOSIT)
         && Sum(targets[..i]) + t <= UINT256_MAX {
        TargetsComplaint(c, p, addresses, targets, i + 1, seen || a == c.operator, error);
      }
    }
  }

  lemma FaultlessExactlyWhenWellFormed(c: Config, addresses: seq<Address>, targets: seq<nat>)
    ensures WellFormedAttempt(c, addresses, targets) <==>
            0 < |addresses| <= 32 && |addresses| == |targets| && TargetComplaints(c, addresses, targets) == iset{}
  {
    hide Sum;
    assert addresses[..|addresses|] == addresses;
    var wrong := TargetComplaints(c, addresses, targets);
    if 0 < |addresses| <= 32 && |addresses| == |targets| && wrong == iset{} {
      assert InvalidParticipant !in wrong && DuplicateParticipant !in wrong && InvalidFundingTarget !in wrong;
      assert OperatorTargetTooSmall !in wrong && FundingTargetsDoNotMatchValidator !in wrong;
    }
  }

  lemma CommitJudged(c: Config, p: Pool, tx: Tx)
    requires Inv(c, p) && tx.action.Commit?
    ensures Judged(Complaints(c, p, tx), Step(c, p, tx))
  {
    hide Inv;
    StepKeepsInv(c, p, tx);
  }

  lemma ListJudged(c: Config, p: Pool, addresses: seq<Address>, targets: seq<nat>)
    requires p.participants == []
    ensures var complaint, wrong := AttemptError(c, p, addresses, targets), ListComplaints(c, addresses, targets);
            if complaint.None? then wrong == iset{}
            else FirstOf(complaint.value, wrong) && 2 <= Place(complaint.value) <= 4
  {
    var complaint := AttemptError(c, p, addresses, targets);
    if 0 < |addresses| <= 32 && |addresses| == |targets| {
      hide Distinct, SmallOperatorTarget, WellFormedAttempt;
      assert addresses[..0] == [] && targets[..0] == [];
      if complaint.Some? {
        TargetsComplaint(c, p, addresses, targets, 0, false, complaint.value);
      } else {
        AttemptAcceptedExactly(c, p, addresses, targets);
        FaultlessExactlyWhenWellFormed(c, addresses, targets);
      }
    }
  }

  lemma OpenJudged(c: Config, p: Pool, tx: Tx)
    requires Inv(c, p) && tx.action.Open?
    ensures Judged(Complaints(c, p, tx), Step(c, p, tx))
  {
    hide Inv, Assigned, AttemptError, HoldsOfList;
    StepKeepsInv(c, p, tx);
    if p.stage.Predeposited? {
      NothingListed(c, p);
      ListJudged(c, p, tx.action.addresses, tx.action.targets);
      var wrong := ListComplaints(c, tx.action.addresses, tx.action.targets);
      assert forall e :: HoldsOfList(c, tx.action.addresses, tx.action.targets, e) <==> e in wrong;
    }
  }

  lemma FundingJudged(c: Config, p: Pool, tx: Tx)
    requires Inv(c, p) && (tx.action.Fund? || tx.action.Transfer?)
    ensures Judged(Complaints(c, p, tx), Step(c, p, tx))
  {
    hide Inv, Remaining;
    StepKeepsInv(c, p, tx);
  }

  lemma TopUpJudged(c: Config, p: Pool, tx: Tx)
    requires Inv(c, p) && tx.action.TopUp?
    ensures Judged(Complaints(c, p, tx), Step(c, p, tx))
  {
    hide Total, Remaining, CreditsUpTo, CreditTotalUpTo;
    StepKeepsInv(c, p, tx);
    if p.stage.Funding? {
      FullExactlyWhenNothingRemains(c, p);
      CreditedInFull(c, p);
    }
  }

  lemma ExitJudged(c: Config, p: Pool, tx: Tx)
    requires Inv(c, p) && tx.action.RequestExit?
    ensures Judged(Complaints(c, p, tx), Step(c, p, tx))
  {
    hide Total;
    assert At(p.credited, tx.caller) > 0 <==> p.stage.ToppedUp? && tx.caller in p.participants;
  }

  lemma RefundJudged(c: Config, p: Pool, tx: Tx)
    requires Inv(c, p) && tx.action.RefundTo?
    ensures Judged(Complaints(c, p, tx), Step(c, p, tx))
  {
    hide Inv;
    StepKeepsInv(c, p, tx);
    RefundSucceedsExactly(c, p, tx);
    InvGross(c, p);
    assert p.totalRefundable >= At(p.refundable, tx.caller) by { RefundBacked(c, p, tx.caller); }
  }

  lemma RefundBacked(c: Config, p: Pool, a: Address)
    requires Inv(c, p)
    ensures At(p.refundable, a) <= p.totalRefundable
  {
    hide Agreement, Total;
    PartBelowTotal(p.refundable, a);
  }

  lemma ClaimJudged(c: Config, p: Pool, tx: Tx)
    requires Inv(c, p) && tx.action.ClaimTo?
    ensures Judged(Complaints(c, p, tx), Step(c, p, tx))
  {
    hide Inv, Credit, Claimable;
    InvGross(c, p);
    ClaimSucceedsExactly(c, p, tx);
    if p.stage.ToppedUp? {
      CreditOf(c, p);
      ClaimFits(p, tx.caller);
    }
  }

  lemma CreditOf(c: Config, p: Pool)
    requires Inv(c, p) && p.stage.ToppedUp?
    ensures Credit(p) && p.totalCredited != 0
  {
    hide Agreement, Total;
  }

  /**
   A transaction goes through if and only if nothing is wrong with it, and otherwise reverts with
   something that is, before which the contract checks nothing else that is wrong.
   */
  lemma FirstComplaintDecides(c: Config, p: Pool, tx: Tx)
    requires Inv(c, p)
    ensures Step(c, p, tx).Done? <==> Complaints(c, p, tx) == iset{}
    ensures Step(c, p, tx).Reverted? ==> FirstOf(Step(c, p, tx).error, Complaints(c, p, tx))
  {
    hide Inv, Complaints, Place, Step;
    match tx.action
    case Commit(_, _, _) => CommitJudged(c, p, tx);
    case Open(_, _) => OpenJudged(c, p, tx);
    case Fund(_) => FundingJudged(c, p, tx);
    case Transfer(_) => FundingJudged(c, p, tx);
    case Close => CloseJudged(c, p, tx);
    case TopUp(_) => TopUpJudged(c, p, tx);
    case RequestExit(_, _, _, _, _) => ExitJudged(c, p, tx);
    case RefundTo(_, _) => RefundJudged(c, p, tx);
    case ClaimTo(_, _) => ClaimJudged(c, p, tx);
    case Force(_) => ForceJudged(c, p, tx);
  }

  lemma CloseJudged(c: Config, p: Pool, tx: Tx)
    requires Inv(c, p) && tx.action.Close?
    ensures Judged(Complaints(c, p, tx), Step(c, p, tx))
  {
    hide Inv, ClosedUpTo, ClosedUpToLogs;
    StepKeepsInv(c, p, tx);
  }

  lemma ForceJudged(c: Config, p: Pool, tx: Tx)
    requires tx.action.Force?
    ensures Judged(Complaints(c, p, tx), Step(c, p, tx))
  {
    hide CommitEffect, OpenEffect, FundEffect, TransferEffect, CloseEffect, TopUpEffect, ExitEffect, RefundEffect;
    hide ClaimEffect, SnapshotOf, HoldsOfOpening, HoldsOfFunding, HoldsOfTopUp, HoldsOfClaim;
  }
}
