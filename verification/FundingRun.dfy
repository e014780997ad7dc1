/**
 The funding command against the ledger: what its last re-read accepted, and what can still go wrong
 between that re-read and the block that includes the transfer.
 */
module FundingRun {
  import opened Amounts
  import opened Options
  import opened PoolLedger
  import opened PoolInvariant
  import opened PoolHistory
  import opened PoolAttempts

  const GWEI: nat := 1_000_000_000

  /** The values the funding pins are compared with: at the review, and again at the last re-read. */
  datatype PinnedValues = PinnedValues(attempt: nat, deadline: nat, callerTarget: nat, operatorTarget: nat)

  /** The values `assertStillFundable` reads together. */
  datatype Reading = Reading(stage: Stage, values: PinnedValues, remaining: nat, timestamp: nat)

  /** The optional `EXPECTED_*` declarations. */
  datatype Pins = Pins(attempt: Option<nat>, deadlineBefore: Option<nat>,
                       callerTargetGwei: Option<nat>, operatorTargetGwei: Option<nat>)

  function PinnedAt(c: Config, p: Pool, caller: Address): PinnedValues {
    PinnedValues(p.attempt, p.deadline, At(p.target, caller), At(p.target, c.operator))
  }

  function ReadAt(c: Config, p: Pool, caller: Address, timestamp: nat): Reading {
    Reading(p.stage, PinnedAt(c, p, caller), Remaining(c, p, caller), timestamp)
  }

  predicate PinsHold(pins: Pins, v: PinnedValues) {
    && (pins.attempt.Some? ==> pins.attempt.value == v.attempt)
    && (pins.deadlineBefore.Some? ==> v.deadline <= pins.deadlineBefore.value)
    && (pins.callerTargetGwei.Some? ==> v.callerTarget == pins.callerTargetGwei.value * GWEI)
    && (pins.operatorTargetGwei.Some? ==> v.operatorTarget == pins.operatorTargetGwei.value * GWEI)
  }

  predicate StillFundable(r: Reading, amount: nat, reviewedAttempt: nat, pins: Pins) {
    && r.stage.Funding?
    && r.values.attempt == reviewedAttempt
    && r.timestamp < r.values.deadline
    && amount <= r.remaining
    && PinsHold(pins, r.values)
  }

  /** The transfer the re-read allowed is accepted by a pool that has not moved since, up to and at the deadline. */
  lemma AcceptedIfNothingMoved(c: Config, p: Pool, sender: Address, amount: nat, timestamp: nat, reviewed: nat,
                               pins: Pins, tx: Tx)
    requires Inv(c, p) && amount > 0 && StillFundable(ReadAt(c, p, sender, timestamp), amount, reviewed, pins)
    requires tx.caller == sender && (tx.action == Transfer(amount) || tx.action == Action.Fund(amount))
    ensures Step(c, p, tx).Done? <==> tx.now <= p.deadline
  {
    hide Total;
    StepKeepsInv(c, p, tx);
    assert sender in p.participants <==> At(p.target, sender) > 0;
  }

  // ---------------------------------------------------------------- the one divergence

  /** The two funding routes do the same in every stage but the last, where only the transfer is accepted. */
  lemma RoutesDivergeOnlyOnceToppedUp(c: Config, p: Pool, now: nat, sender: Address, amount: nat)
    ensures Step(c, p, Tx(now, sender, Transfer(amount))) == Step(c, p, Tx(now, sender, Action.Fund(amount)))
            <==> !p.stage.ToppedUp?
    ensures p.stage.ToppedUp? ==>
              Step(c, p, Tx(now, sender, Action.Fund(amount))) == Reverted(InvalidState)
              && Step(c, p, Tx(now, sender, Transfer(amount)))
                 == Done(p.(balance := p.balance + amount), [EthReceivedViaCall(sender, amount)])
  {
    hide FundEffect;
    FundRefusedOutsideFunding(c, p, sender, now, amount);
  }

  lemma FundRefusedOutsideFunding(c: Config, p: Pool, sender: Address, now: nat, amount: nat)
    ensures !p.stage.Funding? ==> FundEffect(c, p, sender, now, amount) == Refused(InvalidState)
  {
  }

  /** This transaction funds attempt `attempt` on behalf of `sender`. */
  ghost predicate FundsAttempt(c: Config, p: Pool, tx: Tx, sender: Address, attempt: nat) {
    exists amount, total, all :: ParticipantFunded(attempt, sender, amount, total, all) in LogsOf(c, p, tx)
  }

  /** This transaction closes attempt `attempt` after its deadline. */
  ghost predicate ClosesAttempt(c: Config, p: Pool, tx: Tx, attempt: nat) {
    FundingAttemptClosed(attempt) in LogsOf(c, p, tx) && p.attempt == attempt && p.deadline < tx.now
  }

  /** Anything left to fund means an attempt is open: a topped-up pool has no allocation left. */
  lemma RemainingMeansFunding(c: Config, p: Pool, sender: Address)
    requires Inv(c, p)
    ensures Remaining(c, p, sender) > 0 ==> p.stage.Funding? && sender in p.participants
  {
    hide Total;
    if p.stage.ToppedUp? {
      FullExactlyWhenNothingRemains(c, p);
    }
    assert At(p.target, sender) == 0 ==> Remaining(c, p, sender) == 0;
  }

  /** Only the sender's own funding, or the close, takes an open allocation away. */
  lemma AllocationStays(c: Config, p: Pool, tx: Tx, sender: Address)
    requires Inv(c, p) && Remaining(c, p, sender) > 0
    ensures || FundsAttempt(c, p, tx, sender, p.attempt)
            || ClosesAttempt(c, p, tx, p.attempt)
            || (Next(c, p, tx).attempt == p.attempt && Remaining(c, Next(c, p, tx), sender) == Remaining(c, p, sender))
  {
    RemainingMeansFunding(c, p, sender);
    if tx.action.Fund? || tx.action.Transfer? {
      FundingTakesOwnAllocation(c, p, tx, sender);
    } else if tx.action.Close? {
      ClosingIsLogged(c, p, tx);
    } else {
      OthersLeaveAllocations(c, p, tx, sender);
    }
    hide Inv, EffectOf, FundsAttempt, ClosesAttempt, Remaining;
  }

  lemma FundingTakesOwnAllocation(c: Config, p: Pool, tx: Tx, sender: Address)
    requires p.stage.Funding? && (tx.action.Fund? || tx.action.Transfer?)
    ensures || FundsAttempt(c, p, tx, sender, p.attempt)
            || (Next(c, p, tx).attempt == p.attempt && Remaining(c, Next(c, p, tx), sender) == Remaining(c, p, sender))
  {
    if Step(c, p, tx).Done? && tx.caller == sender {
      var l := EffectOf(c, p, tx).logs[0];
      assert l in LogsOf(c, p, tx);
      assert l == ParticipantFunded(p.attempt, tx.caller, l.amount, l.participantTotal, l.attemptTotal);
    }
  }

  lemma ClosingIsLogged(c: Config, p: Pool, tx: Tx)
    requires tx.action.Close?
    ensures if Closes(c, p, tx) then ClosesAttempt(c, p, tx, p.attempt) else Next(c, p, tx) == p
  {
    hide ClosedUpTo, ClosedUpToLogs;
    if Step(c, p, tx).Done? {
      var logs := EffectOf(c, p, tx).logs;
      assert logs[|logs| - 1] in LogsOf(c, p, tx);
    }
  }

  lemma OthersLeaveAllocations(c: Config, p: Pool, tx: Tx, sender: Address)
    requires Inv(c, p) && p.stage.Funding? && Remaining(c, p, sender) > 0
    requires !tx.action.Fund? && !tx.action.Transfer? && !tx.action.Close?
    ensures Next(c, p, tx).attempt == p.attempt && Remaining(c, Next(c, p, tx), sender) == Remaining(c, p, sender)
  {
    hide Total, FundEffect, CloseEffect, TransferEffect, CreditsUpTo, CreditTotalUpTo, AttemptError, Assigned;
    hide Claimable;
    FullExactlyWhenNothingRemains(c, p);
    hide Agreement;
  }

  /** This transaction funds that attempt for the sender, or closes it after its deadline. */
  ghost predicate Explains(c: Config, p: Pool, tx: Tx, sender: Address, attempt: nat) {
    FundsAttempt(c, p, tx, sender, attempt) || ClosesAttempt(c, p, tx, attempt)
  }

  /** Some transaction of the run does. */
  ghost predicate Explained(c: Config, p: Pool, txs: seq<Tx>, sender: Address, attempt: nat) {
    exists i :: 0 <= i < |txs| && Explains(c, After(c, p, txs[..i]), txs[i], sender, attempt)
  }

  lemma {:induction false} UnexplainedRunStaysOpen(c: Config, p: Pool, txs: seq<Tx>, sender: Address, n: nat)
    requires Inv(c, p) && Remaining(c, p, sender) > 0 && n <= |txs|
    requires !Explained(c, p, txs, sender, p.attempt)
    ensures Inv(c, After(c, p, txs[..n])) && After(c, p, txs[..n]).attempt == p.attempt
    ensures Remaining(c, After(c, p, txs[..n]), sender) == Remaining(c, p, sender)
  {
    hide Inv, Next, FundsAttempt, ClosesAttempt, Remaining;
    if n > 0 {
      UnexplainedRunStaysOpen(c, p, txs, sender, n - 1);
      var q := After(c, p, txs[..n - 1]);
      assert !Explains(c, q, txs[n - 1], sender, p.attempt);
      AllocationStays(c, q, txs[n - 1], sender);
      StepKeepsInv(c, q, txs[n - 1]);
      assert txs[..n] == txs[..n - 1] + [txs[n - 1]];
      AfterConcat(c, p, txs[..n - 1], [txs[n - 1]]);
      AfterOne(c, q, txs[n - 1]);
    }
  }

  /**
   If the remaining allocation was positive when it was read, and a later transfer finds the pool
   topped up, then in between either the sender funded that same attempt once more or the attempt
   was closed after its deadline. Nobody else's transactions can bring this about, in any order.
   */
  lemma ProceedsNeedASecondSendOrAnExpiry(c: Config, p: Pool, txs: seq<Tx>, sender: Address)
    requires Inv(c, p) && Remaining(c, p, sender) > 0
    requires After(c, p, txs).stage.ToppedUp?
    ensures Explained(c, p, txs, sender, p.attempt)
  {
    if !Explained(c, p, txs, sender, p.attempt) {
      UnexplainedRunStaysOpen(c, p, txs, sender, |txs|);
      assert txs[..|txs|] == txs;
      RemainingMeansFunding(c, After(c, p, txs), sender);
    }
  }

  /** The same, for the command: an accepted final re-read, any run, and the transfer logged as proceeds. */
  lemma StrayTransferIsExplained(c: Config, p: Pool, txs: seq<Tx>, sender: Address, amount: nat,
                                 timestamp: nat, reviewed: nat, pins: Pins, now: nat)
    requires Inv(c, p) && 0 < amount && StillFundable(ReadAt(c, p, sender, timestamp), amount, reviewed, pins)
    requires EthReceivedViaCall(sender, amount) in LogsOf(c, After(c, p, txs), Tx(now, sender, Transfer(amount)))
    ensures Explained(c, p, txs, sender, reviewed)
  {
    hide Inv, Explained, Remaining;
    ProceedsNeedASecondSendOrAnExpiry(c, p, txs, sender);
  }

  // ---------------------------------------------------------------- reads that straddle blocks

  lemma {:induction false} AttemptNeverFalls(c: Config, p: Pool, txs: seq<Tx>)
    requires Inv(c, p)
    ensures p.attempt <= After(c, p, txs).attempt
    decreases |txs|
  {
    hide Inv, Next, Closes;
    if txs != [] {
      NextAttempt(c, p, txs[0]);
      StepKeepsInv(c, p, txs[0]);
      AttemptNeverFalls(c, Next(c, p, txs[0]), txs[1..]);
    }
  }

  /** Some transaction of the run closes that attempt after its deadline. */
  ghost predicate Closed(c: Config, p: Pool, txs: seq<Tx>, attempt: nat) {
    exists i :: 0 <= i < |txs| && ClosesAttempt(c, After(c, p, txs[..i]), txs[i], attempt)
  }

  lemma ClosedExplains(c: Config, p: Pool, txs: seq<Tx>, sender: Address, attempt: nat)
    requires Closed(c, p, txs, attempt)
    ensures Explained(c, p, txs, sender, attempt)
  {
    hide FundsAttempt, ClosesAttempt;
    var i :| 0 <= i < |txs| && ClosesAttempt(c, After(c, p, txs[..i]), txs[i], attempt);
    assert Explains(c, After(c, p, txs[..i]), txs[i], sender, attempt);
  }

  /** An attempt closed in a part of a run is closed in the run. */
  lemma ClosedWithin(c: Config, p: Pool, before: seq<Tx>, between: seq<Tx>, after: seq<Tx>, attempt: nat)
    requires Closed(c, After(c, p, before), between, attempt)
    ensures Closed(c, p, before + between + after, attempt)
  {
    hide ClosesAttempt;
    var txs, q := before + between + after, After(c, p, before);
    var i :| 0 <= i < |between| && ClosesAttempt(c, After(c, q, between[..i]), between[i], attempt);
    var j := |before| + i;
    assert txs[..j] == before + between[..i] && txs[j] == between[i];
    AfterConcat(c, p, before, between[..i]);
    assert ClosesAttempt(c, After(c, p, txs[..j]), txs[j], attempt);
  }

  /** An attempt is left behind only by closing it after its deadline. */
  lemma {:induction false} LeavingNeedsAClose(c: Config, p: Pool, txs: seq<Tx>)
    requires Inv(c, p) && Live(p)
    ensures (Live(After(c, p, txs)) && After(c, p, txs).attempt == p.attempt) || Closed(c, p, txs, p.attempt)
    decreases |txs|
  {
    hide Inv, Next, Step, ClosesAttempt;
    if txs != [] {
      var q := Next(c, p, txs[0]);
      NextAttempt(c, p, txs[0]);
      StepKeepsInv(c, p, txs[0]);
      if Closes(c, p, txs[0]) {
        ClosingIsLogged(c, p, txs[0]);
        assert txs[..0] == [];
      } else {
        LeavingNeedsAClose(c, q, txs[1..]);
        if Closed(c, q, txs[1..], p.attempt) {
          AfterOne(c, p, txs[0]);
          assert txs == [txs[0]] + txs[1..] + [];
          ClosedWithin(c, p, [txs[0]], txs[1..], [], p.attempt);
        }
      }
    }
  }

  /** What explains a part of a run explains the run. */
  lemma ExplainedWithin(c: Config, p: Pool, before: seq<Tx>, between: seq<Tx>, after: seq<Tx>, sender: Address,
                        attempt: nat)
    requires Explained(c, After(c, p, before), between, sender, attempt)
    ensures Explained(c, p, before + between + after, sender, attempt)
  {
    hide Explains;
    var txs, q := before + between + after, After(c, p, before);
    var i :| 0 <= i < |between| && Explains(c, After(c, q, between[..i]), between[i], sender, attempt);
    var j := |before| + i;
    assert txs[..j] == before + between[..i] && txs[j] == between[i];
    AfterConcat(c, p, before, between[..i]);
    assert Explains(c, After(c, p, txs[..j]), txs[j], sender, attempt);
  }

  /** The ledger after the first n transactions of a history. */
  function Moment(c: Config, start: Pool, history: seq<Tx>, n: nat): Pool
    requires n <= |history|
  {
    After(c, start, history[..n])
  }

  lemma MomentsInOrder(c: Config, start: Pool, history: seq<Tx>, m: nat, n: nat)
    requires Inv(c, start) && m <= n <= |history|
    ensures Inv(c, Moment(c, start, history, m)) && Inv(c, Moment(c, start, history, n))
    ensures Moment(c, start, history, n) == After(c, Moment(c, start, history, m), history[m..n])
    ensures Moment(c, start, history, m).attempt <= Moment(c, start, history, n).attempt
  {
    hide Inv, After;
    assert history[..n] == history[..m] + history[m..n];
    AfterConcat(c, start, history[..m], history[m..n]);
    RunKeepsInv(c, start, history[..m]);
    RunKeepsInv(c, start, history[..n]);
    AttemptNeverFalls(c, Moment(c, start, history, m), history[m..n]);
  }

  /** Explained from one moment of a history on, up to its end. */
  ghost predicate ExplainedSince(c: Config, start: Pool, history: seq<Tx>, n: nat, sender: Address, attempt: nat)
    requires n <= |history|
  {
    Explained(c, Moment(c, start, history, n), history[n..], sender, attempt)
  }

  lemma ExplainedEarlier(c: Config, start: Pool, history: seq<Tx>, m: nat, n: nat, sender: Address, attempt: nat)
    requires Inv(c, start) && m <= n <= |history| && ExplainedSince(c, start, history, n, sender, attempt)
    ensures ExplainedSince(c, start, history, m, sender, attempt)
  {
    hide Inv, After, Explained;
    MomentsInOrder(c, start, history, m, n);
    ExplainedWithin(c, Moment(c, start, history, m), history[m..n], history[n..], [], sender, attempt);
    assert history[m..n] + history[n..] + [] == history[m..];
  }

  /** A positive allocation of that attempt, at any moment before the pool was found topped up. */
  lemma AllocationExplains(c: Config, start: Pool, history: seq<Tx>, n: nat, sender: Address)
    requires Inv(c, start) && n <= |history|
    requires Remaining(c, Moment(c, start, history, n), sender) > 0
    requires Moment(c, start, history, |history|).stage.ToppedUp?
    ensures ExplainedSince(c, start, history, n, sender, Moment(c, start, history, n).attempt)
  {
    hide Inv, After, Explained, Remaining;
    MomentsInOrder(c, start, history, n, |history|);
    assert history[n..|history|] == history[n..];
    ProceedsNeedASecondSendOrAnExpiry(c, Moment(c, start, history, n), history[n..], sender);
  }

  /** Closed after one moment of a history, by its end. */
  ghost predicate ClosedSince(c: Config, start: Pool, history: seq<Tx>, n: nat, attempt: nat)
    requires n <= |history|
  {
    Closed(c, Moment(c, start, history, n), history[n..], attempt)
  }

  lemma ClosedEarlier(c: Config, start: Pool, history: seq<Tx>, m: nat, n: nat, attempt: nat)
    requires Inv(c, start) && m <= n <= |history| && ClosedSince(c, start, history, n, attempt)
    ensures ClosedSince(c, start, history, m, attempt)
  {
    hide Inv, After, Closed;
    MomentsInOrder(c, start, history, m, n);
    ClosedWithin(c, Moment(c, start, history, m), history[m..n], history[n..], [], attempt);
    assert history[m..n] + history[n..] + [] == history[m..];
  }

  /** An attempt that was live once and is not the current one later on was closed in between. */
  lemma ReplacedMeansClosed(c: Config, start: Pool, history: seq<Tx>, m: nat, n: nat)
    requires Inv(c, start) && m <= n <= |history| && Live(Moment(c, start, history, m))
    requires Moment(c, start, history, m).attempt != Moment(c, start, history, n).attempt
    ensures ClosedSince(c, start, history, m, Moment(c, start, history, m).attempt)
  {
    hide Inv, After, Closed;
    MomentsInOrder(c, start, history, m, n);
    var p := Moment(c, start, history, m);
    LeavingNeedsAClose(c, p, history[m..n]);
    ClosedAtFront(c, p, history[m..n], history[n..], p.attempt);
    assert history[m..n] + history[n..] == history[m..];
  }

  lemma ClosedAtFront(c: Config, p: Pool, txs: seq<Tx>, after: seq<Tx>, attempt: nat)
    requires Closed(c, p, txs, attempt)
    ensures Closed(c, p, txs + after, attempt)
  {
    hide Closed, ClosesAttempt;
    assert After(c, p, []) == p;
    ClosedWithin(c, p, [], txs, after, attempt);
    assert [] + txs + after == txs + after;
  }

  /** The moments, counted in transactions mined so far, that the command's reads saw. */
  datatype Reads = Reads(review: nat, allocation: nat, reRead: nat, state: nat, attempt: nat, remaining: nat)

  /** Each group of reads follows the one before it; the reads of the last group come in any order. */
  predicate InOrder(r: Reads, end: nat) {
    && r.review <= r.allocation <= r.reRead
    && r.reRead <= r.state <= end && r.reRead <= r.attempt <= end && r.reRead <= r.remaining <= end
  }

  /** What the command knows when it sends, however many blocks its reads straddle. */
  ghost predicate Read(c: Config, start: Pool, history: seq<Tx>, r: Reads, sender: Address, reviewed: nat)
    requires InOrder(r, |history|)
  {
    && Moment(c, start, history, r.review).attempt == reviewed
    && Remaining(c, Moment(c, start, history, r.allocation), sender) > 0
    && Moment(c, start, history, r.state).stage.Funding?
    && Moment(c, start, history, r.attempt).attempt == reviewed
    && Remaining(c, Moment(c, start, history, r.remaining), sender) > 0
  }

  /**
   Torn reads or not: if the pool is then found topped up, the reviewed attempt is the one that was
   funded a second time or closed after its deadline, at the latest since the allocation was first
   read, and since the last re-read began unless the attempt was already closed by then. That in turn
   is impossible when the state is read no later than the attempt number.
   */
  lemma ReviewedAttemptIsExplained(c: Config, start: Pool, history: seq<Tx>, r: Reads, sender: Address, reviewed: nat)
    requires Inv(c, start) && InOrder(r, |history|) && Read(c, start, history, r, sender, reviewed)
    requires Moment(c, start, history, |history|).stage.ToppedUp?
    ensures ExplainedSince(c, start, history, r.allocation, sender, reviewed)
    ensures ExplainedSince(c, start, history, r.reRead, sender, reviewed) || !Live(Moment(c, start, history, r.reRead))
    ensures r.state <= r.attempt ==> ExplainedSince(c, start, history, r.reRead, sender, reviewed)
  {
    hide Inv, After, ExplainedSince, Remaining, Moment;
    MomentsInOrder(c, start, history, r.review, r.allocation);
    MomentsInOrder(c, start, history, r.allocation, r.attempt);
    MomentsInOrder(c, start, history, r.allocation, r.reRead);
    MomentsInOrder(c, start, history, r.reRead, r.attempt);
    AllocationExplains(c, start, history, r.allocation, sender);
    var began := Moment(c, start, history, r.reRead);
    if Live(began) {
      LiveIsExplained(c, start, history, r.reRead, r.remaining, sender);
    }
    if r.state <= r.attempt {
      StateBeforeNumber(c, start, history, r, sender, reviewed);
    }
  }

  lemma ClosedSinceExplains(c: Config, start: Pool, history: seq<Tx>, n: nat, sender: Address, attempt: nat)
    requires n <= |history| && ClosedSince(c, start, history, n, attempt)
    ensures ExplainedSince(c, start, history, n, sender, attempt)
  {
    hide Closed, Explained;
    ClosedExplains(c, Moment(c, start, history, n), history[n..], sender, attempt);
  }

  lemma LiveIsExplained(c: Config, start: Pool, history: seq<Tx>, m: nat, n: nat, sender: Address)
    requires Inv(c, start) && m <= n <= |history| && Live(Moment(c, start, history, m))
    requires Remaining(c, Moment(c, start, history, n), sender) > 0
    requires Moment(c, start, history, |history|).stage.ToppedUp?
    ensures ExplainedSince(c, start, history, m, sender, Moment(c, start, history, m).attempt)
  {
    hide Inv, After, ExplainedSince, ClosedSince, Remaining, Moment;
    if Moment(c, start, history, m).attempt == Moment(c, start, history, n).attempt {
      AllocationExplains(c, start, history, n, sender);
      ExplainedEarlier(c, start, history, m, n, sender, Moment(c, start, history, m).attempt);
    } else {
      ReplacedMeansClosed(c, start, history, m, n);
      ClosedSinceExplains(c, start, history, m, sender, Moment(c, start, history, m).attempt);
    }
  }

  /** Open when its state was read, and still the same attempt after that, it was live all along. */
  lemma StateBeforeNumber(c: Config, start: Pool, history: seq<Tx>, r: Reads, sender: Address, reviewed: nat)
    requires Inv(c, start) && InOrder(r, |history|) && Read(c, start, history, r, sender, reviewed)
    requires Moment(c, start, history, |history|).stage.ToppedUp? && r.state <= r.attempt
    ensures ExplainedSince(c, start, history, r.reRead, sender, reviewed)
  {
    hide Inv, After, ExplainedSince, Remaining, Moment;
    MomentsInOrder(c, start, history, r.review, r.state);
    MomentsInOrder(c, start, history, r.state, r.attempt);
    MomentsInOrder(c, start, history, r.review, r.remaining);
    if r.remaining <= r.state {
      MomentsInOrder(c, start, history, r.remaining, r.state);
      AllocationExplains(c, start, history, r.remaining, sender);
      ExplainedEarlier(c, start, history, r.reRead, r.remaining, sender, reviewed);
    } else {
      LiveIsExplained(c, start, history, r.state, r.remaining, sender);
      ExplainedEarlier(c, start, history, r.reRead, r.state, sender, reviewed);
    }
  }

  /**
   And if the send then finds another attempt than the reviewed one, that one had been closed: at the
   latest since the allocation was first read, and since the last re-read began unless it was closed
   by then, which again is impossible when the state is read no later than the number.
   */
  lemma OtherAttemptMeansClosed(c: Config, start: Pool, history: seq<Tx>, r: Reads, sender: Address, reviewed: nat)
    requires Inv(c, start) && InOrder(r, |history|) && Read(c, start, history, r, sender, reviewed)
    requires Moment(c, start, history, |history|).attempt != reviewed
    ensures ClosedSince(c, start, history, r.allocation, reviewed)
    ensures ClosedSince(c, start, history, r.reRead, reviewed) || !Live(Moment(c, start, history, r.reRead))
    ensures r.state <= r.attempt ==> ClosedSince(c, start, history, r.reRead, reviewed)
  {
    hide Inv, After, ClosedSince, Remaining, Moment;
    MomentsInOrder(c, start, history, r.review, r.allocation);
    MomentsInOrder(c, start, history, r.allocation, r.reRead);
    MomentsInOrder(c, start, history, r.reRead, r.attempt);
    RemainingMeansFunding(c, Moment(c, start, history, r.allocation), sender);
    ReplacedMeansClosed(c, start, history, r.allocation, |history|);
    if Live(Moment(c, start, history, r.reRead)) {
      ReplacedMeansClosed(c, start, history, r.reRead, |history|);
    }
    if r.state <= r.attempt {
      MomentsInOrder(c, start, history, r.reRead, r.state);
      MomentsInOrder(c, start, history, r.state, r.attempt);
      ReplacedMeansClosed(c, start, history, r.state, |history|);
      ClosedEarlier(c, start, history, r.reRead, r.state, reviewed);
    }
  }

  /** A second send that arrives while the attempt is still open is refused whole. */
  lemma SecondSendRevertsWhileOpen(c: Config, p: Pool, tx: Tx)
    requires Inv(c, p) && p.stage.Funding? && Remaining(c, p, tx.caller) == 0
    requires tx.action.Fund? || tx.action.Transfer?
    ensures Step(c, p, tx).Reverted? && Next(c, p, tx) == p
  {
  }

  /**
   What a stray transfer gives back: a credited account's entitlement grows by its pro-rata part of
   the transfer, to within one wei, and an uncredited account gets nothing.
   */
  lemma StrayTransferIsShared(c: Config, p: Pool, now: nat, sender: Address, amount: nat, a: Address)
    requires Inv(c, p) && p.stage.ToppedUp?
    ensures var q := Next(c, p, Tx(now, sender, Transfer(amount)));
            var gain := Claimable(q, a) - Claimable(p, a);
            Entitled(amount, At(p.credited, a)) <= gain <= Entitled(amount, At(p.credited, a)) + 1
            && (At(p.credited, a) == 0 ==> gain == 0)
  {
    hide Entitled, Agreement, Total, FundEffect;
    var q := Next(c, p, Tx(now, sender, Transfer(amount)));
    var credit := At(p.credited, a);
    InflowKeepsInv(c, p, amount);
    assert q == p.(balance := p.balance + amount);
    ClaimableCompletes(p, a);
    ClaimableCompletes(q, a);
    EntitledBounds(Gross(p), credit);
    EntitledBounds(amount, credit);
    EntitledBounds(Gross(p) + amount, credit);
    ShareOfSum(Gross(p), amount, credit, Entitled(Gross(p), credit), Entitled(amount, credit),
               Entitled(Gross(p) + amount, credit));
    EntitledOfNothing(Gross(p));
    EntitledOfNothing(Gross(q));
  }

  lemma ShareOfSum(g: nat, v: nat, credit: nat, x: nat, y: nat, z: nat)
    requires InShare(g, credit, x) && InShare(v, credit, y) && InShare(g + v, credit, z)
    ensures x + y <= z <= x + y + 1
  {
    assert (g + v) * credit == g * credit + v * credit;
  }
}
