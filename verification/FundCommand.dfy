/**
 scripts/fund.ts as it runs: a review, two rounds of reads, one send and a receipt, on a chain where
 other accounts may get any transactions mined before every single read.
 */
module FundCommand {
  import opened Amounts
  import opened Options
  import opened PoolLedger
  import opened PoolInvariant
  import opened PoolHistory
  import opened PoolAttempts
  import opened PoolGuards
  import opened FundingRun
  import opened Receipts

  /** What is mined before the next read, and the head block's time by then. */
  datatype Interval = Interval(txs: seq<Tx>, timestamp: nat)

  /** The chain an honest endpoint answers from. */
  class Chain {
    const config: Config
    var pool: Pool
    var timestamp: nat
    var pending: seq<Interval>

    /** All that was mined since `start`; `submitted` is the command's own part of it. */
    ghost const start: Pool
    ghost var history: seq<Tx>
    ghost var submitted: seq<Tx>

    ghost predicate Valid()
      reads this
    {
      Inv(config, start) && Inv(config, pool) && pool == After(config, start, history)
    }

    /** Every time the head may yet show. */
    ghost function Times(): set<nat>
      reads this
    {
      {timestamp} + set i | 0 <= i < |pending| :: pending[i].timestamp
    }

    constructor (config: Config, pool: Pool, timestamp: nat, pending: seq<Interval>)
      requires Inv(config, pool)
      ensures Valid() && this.config == config && this.pool == pool == start && this.timestamp == timestamp
      ensures this.pending == pending && history == [] && submitted == []
    {
      this.config, this.pool, this.timestamp, this.pending := config, pool, timestamp, pending;
      start, history, submitted := pool, [], [];
    }

    /** Time passes before a read. */
    method Await()
      requires Valid()
      modifies `pool, `timestamp, `pending, `history
      ensures Valid()
      ensures history == old(history) + if old(pending) == [] then [] else old(pending)[0].txs
      ensures old(history) <= history
      ensures history == old(history) ==> pool == old(pool)
      ensures Moment(config, start, history, |history|) == pool
      ensures timestamp == if old(pending) == [] then old(timestamp) else old(pending)[0].timestamp
      ensures pending == if old(pending) == [] then [] else old(pending)[1..]
      ensures Times() <= old(Times())
    {
      hide Inv, After;
      if pending == [] {
        assert history == history + [];
        assert history[..|history|] == history;
        return;
      }
      var next := pending[0];
      AfterConcat(config, start, history, next.txs);
      RunKeepsInv(config, pool, next.txs);
      pool := After(config, pool, next.txs);
      timestamp := next.timestamp;
      history := history + next.txs;
      pending := pending[1..];
      assert history[..|history|] == history;
    }

    /** A signed transaction is mined; None if it reverts, or else the receipt's logs. */
    method Submit(tx: Tx) returns (receipt: Option<seq<ChainLog>>)
      requires Valid()
      modifies `pool, `history, `submitted
      ensures Valid() && history == old(history) + [tx] && submitted == old(submitted) + [tx]
      ensures pool == Next(config, old(pool), tx)
      ensures receipt == if Step(config, old(pool), tx).Done?
                         then Some(Emitted(config.pool, LogsOf(config, old(pool), tx)))
                         else None
    {
      hide Inv, After, Step;
      AfterConcat(config, start, history, [tx]);
      AfterOne(config, pool, tx);
      StepKeepsInv(config, pool, tx);
      var outcome := Step(config, pool, tx);
      receipt := if outcome.Done? then Some(Emitted(config.pool, LogsOf(config, pool, tx))) else None;
      pool := Next(config, pool, tx);
      history, submitted := history + [tx], submitted + [tx];
    }
  }

  /** The moments the review's values were read at, counted in transactions mined so far. */
  datatype ReviewMoments = ReviewMoments(attempt: nat, deadline: nat, caller: nat, operator: nat)

  /** The value is the target of that account at that moment; zero if the loop did not come across it. */
  ghost predicate TargetReadAt(c: Config, start: Pool, history: seq<Tx>, target: nat, account: Address, n: nat) {
    n <= |history| && (target == 0 || target == At(Moment(c, start, history, n).target, account))
  }

  /** A moment stays what it was while the history grows. */
  lemma MomentStays(c: Config, start: Pool, history: seq<Tx>, longer: seq<Tx>, n: nat)
    requires history <= longer && n <= |history|
    ensures Moment(c, start, longer, n) == Moment(c, start, history, n)
  {
    assert longer[..n] == history[..n];
  }

  /**
   Every value declared is the one shown, targets being declared in gwei and shown in wei, and no
   deadline is later.
   */
  ghost predicate Obeys(pins: Pins, v: PinnedValues) {
    && (pins.attempt == None || pins.attempt == Some(v.attempt))
    && (forall latest :: pins.deadlineBefore == Some(latest) ==> v.deadline <= latest)
    && (forall gwei :: pins.callerTargetGwei == Some(gwei) ==> v.callerTarget == gwei * 1_000_000_000)
    && (forall gwei :: pins.operatorTargetGwei == Some(gwei) ==> v.operatorTarget == gwei * 1_000_000_000)
  }

  lemma PinsHoldExactly(pins: Pins, v: PinnedValues)
    ensures PinsHold(pins, v) <==> Obeys(pins, v)
  {
    assert pins.deadlineBefore.Some? ==> pins.deadlineBefore == Some(pins.deadlineBefore.value);
    assert pins.callerTargetGwei.Some? ==> pins.callerTargetGwei == Some(pins.callerTargetGwei.value);
    assert pins.operatorTargetGwei.Some? ==> pins.operatorTargetGwei == Some(pins.operatorTargetGwei.value);
  }

  /** One participant and, in a second read, its target; None if the list has become shorter. */
  method ReadParticipant(chain: Chain, i: nat) returns (participant: Option<Address>, target: nat)
    requires chain.Valid()
    modifies chain`pool, chain`timestamp, chain`pending, chain`history
    ensures chain.Valid() && old(chain.history) <= chain.history && chain.Times() <= old(chain.Times())
    ensures participant.Some? ==>
              target == At(Moment(chain.config, chain.start, chain.history, |chain.history|).target, participant.value)
    ensures chain.history == old(chain.history) ==>
              && chain.pool == old(chain.pool)
              && (participant.Some? <==> i < |chain.pool.participants|)
              && (participant.Some? ==> participant.value == chain.pool.participants[i])
              && (participant.Some? ==> target == At(chain.pool.target, participant.value))
  {
    hide Inv, After, Moment;
    chain.Await();
    if i >= |chain.pool.participants| {
      return None, 0;
    }
    ghost var between := chain.history;
    participant := Some(chain.pool.participants[i]);
    chain.Await();
    target := At(chain.pool.target, participant.value);
  }

  /** The values the review has read so far, each with its moment. */
  ghost predicate ReviewRead(c: Config, start: Pool, history: seq<Tx>, at: ReviewMoments, v: PinnedValues,
                             caller: Address) {
    && TargetReadAt(c, start, history, v.callerTarget, caller, at.caller)
    && at.attempt <= at.deadline <= |history|
    && v.attempt == Moment(c, start, history, at.attempt).attempt
    && v.deadline == Moment(c, start, history, at.deadline).deadline
    && TargetReadAt(c, start, history, v.operatorTarget, c.operator, at.operator)
  }

  lemma ReviewStays(c: Config, start: Pool, history: seq<Tx>, longer: seq<Tx>, at: ReviewMoments, v: PinnedValues,
                    caller: Address)
    requires history <= longer && ReviewRead(c, start, history, at, v, caller)
    ensures ReviewRead(c, start, longer, at, v, caller)
  {
    hide Moment;
    MomentStays(c, start, history, longer, at.attempt);
    MomentStays(c, start, history, longer, at.deadline);
    MomentStays(c, start, history, longer, at.caller);
    MomentStays(c, start, history, longer, at.operator);
  }

  /** What the loop's two assignments make of the values, and of their moments. */
  function Met(v: PinnedValues, participant: Address, target: nat, caller: Address, operator: Address): PinnedValues {
    v.(callerTarget := if participant == caller then target else v.callerTarget,
       operatorTarget := if participant == operator then target else v.operatorTarget)
  }

  ghost function MetAt(at: ReviewMoments, participant: Address, n: nat, caller: Address,
                       operator: Address): ReviewMoments {
    at.(caller := if participant == caller then n else at.caller,
        operator := if participant == operator then n else at.operator)
  }

  lemma ReviewMeets(c: Config, start: Pool, history: seq<Tx>, at: ReviewMoments, v: PinnedValues,
                    participant: Address, target: nat, caller: Address)
    requires ReviewRead(c, start, history, at, v, caller)
    requires target == At(Moment(c, start, history, |history|).target, participant)
    ensures ReviewRead(c, start, history, MetAt(at, participant, |history|, caller, c.operator),
                       Met(v, participant, target, caller, c.operator), caller)
  {
    hide Moment;
  }

  /** The loop over a list that does not change: the targets of those met so far. */
  ghost predicate MetTargets(p: Pool, n: nat, v: PinnedValues, caller: Address, operator: Address) {
    && n <= |p.participants|
    && v.callerTarget == TargetAmong(p, n, caller)
    && v.operatorTarget == TargetAmong(p, n, operator)
  }

  lemma MeetNext(p: Pool, n: nat, v: PinnedValues, caller: Address, operator: Address)
    requires MetTargets(p, n, v, caller, operator) && n < |p.participants|
    ensures MetTargets(p, n + 1, Met(v, p.participants[n], At(p.target, p.participants[n]), caller, operator),
                       caller, operator)
  {
    TargetAmongNext(p, n, caller);
    TargetAmongNext(p, n, operator);
    hide TargetAmong;
  }

  lemma NoneMet(p: Pool, v: PinnedValues, caller: Address, operator: Address)
    requires v.callerTarget == 0 && v.operatorTarget == 0
    ensures MetTargets(p, 0, v, caller, operator)
  {
  }

  /** The attempt number and the deadline, each read on its own. */
  method ReadNumbers(chain: Chain, caller: Address) returns (attempt: nat, deadline: nat, ghost at: ReviewMoments)
    requires chain.Valid()
    modifies chain`pool, chain`timestamp, chain`pending, chain`history
    ensures chain.Valid() && old(chain.history) <= chain.history && |old(chain.history)| <= at.attempt
    ensures chain.Times() <= old(chain.Times())
    ensures ReviewRead(chain.config, chain.start, chain.history, at, PinnedValues(attempt, deadline, 0, 0), caller)
    ensures chain.history == old(chain.history) ==>
              chain.pool == old(chain.pool) && attempt == chain.pool.attempt && deadline == chain.pool.deadline
  {
    hide Inv, After, Moment;
    chain.Await();
    attempt := chain.pool.attempt;
    ghost var first := chain.history;
    chain.Await();
    deadline := chain.pool.deadline;
    at := ReviewMoments(|first|, |chain.history|, 0, 0);
    MomentStays(chain.config, chain.start, first, chain.history, |first|);
  }

  /**
   The review: one participant after another, each read on its own. Every value is the ledger's at
   the moment it was read. If nothing is mined meanwhile, the targets are the caller's and the
   operator's, zero for an account that has none.
   */
  method PrintAndCheckFundingReview(chain: Chain, caller: Address, pins: Pins)
    returns (reviewed: Option<PinnedValues>, ghost at: ReviewMoments)
    requires chain.Valid()
    modifies chain`pool, chain`timestamp, chain`pending, chain`history
    ensures chain.Valid() && old(chain.history) <= chain.history && chain.Times() <= old(chain.Times())
    ensures |old(chain.history)| <= at.attempt
    ensures reviewed.Some? ==>
              && Obeys(pins, reviewed.value)
              && ReviewRead(chain.config, chain.start, chain.history, at, reviewed.value, caller)
    ensures chain.history == old(chain.history) ==>
              var values := PinnedAt(chain.config, chain.pool, caller);
              chain.pool == old(chain.pool)
              && reviewed == if Obeys(pins, values) then Some(values) else None
  {
    hide After, PinsHold, Obeys, Moment, Inv, TargetReadAt, TargetAmong;
    var attempt, deadline;
    attempt, deadline, at := ReadNumbers(chain, caller);
    ghost var earlier := chain.history;
    chain.Await();
    ReviewStays(chain.config, chain.start, earlier, chain.history, at, PinnedValues(attempt, deadline, 0, 0), caller);
    var participantCount := |chain.pool.participants|;
    ghost var quiet, operator := chain.history, chain.config.operator;
    var callerTarget, operatorTarget := 0, 0;
    var i := 0;
    ghost var v := PinnedValues(attempt, deadline, 0, 0);
    NoneMet(chain.pool, v, caller, operator);
    hide MetTargets, ReviewRead;
    while i < participantCount
      invariant chain.Valid() && quiet <= chain.history && i <= participantCount
      invariant chain.Times() <= old(chain.Times())
      invariant v == PinnedValues(attempt, deadline, callerTarget, operatorTarget)
      invariant |old(chain.history)| <= at.attempt
                && ReviewRead(chain.config, chain.start, chain.history, at, v, caller)
      invariant chain.history == quiet ==>
                  participantCount == |chain.pool.participants| && MetTargets(chain.pool, i, v, caller, operator)
    {
      hide Chain.Valid;
      ghost var before, soFar := chain.pool, chain.history;
      var participant, target := ReadParticipant(chain, i);
      if participant.None? {
        return None, at;
      }
      ReviewStays(chain.config, chain.start, soFar, chain.history, at, v, caller);
      ReviewMeets(chain.config, chain.start, chain.history, at, v, participant.value, target, caller);
      if chain.history == quiet {
        assert soFar == quiet;
        MeetNext(before, i, v, caller, operator);
      }
      if participant.value == caller {
        callerTarget := target;
      }
      if participant.value == chain.config.operator {
        operatorTarget := target;
      }
      at := MetAt(at, participant.value, |chain.history|, caller, operator);
      v := Met(v, participant.value, target, caller, operator);
      i := i + 1;
    }
    if chain.history == quiet {
      AllMet(chain.config, chain.pool, v, caller);
    }
    var values := PinnedValues(attempt, deadline, callerTarget, operatorTarget);
    PinsHoldExactly(pins, values);
    reviewed := if PinsHold(pins, values) then Some(values) else None;
  }

  lemma AllMet(c: Config, p: Pool, v: PinnedValues, caller: Address)
    requires Inv(c, p) && MetTargets(p, |p.participants|, v, caller, c.operator)
    ensures v.callerTarget == At(p.target, caller) && v.operatorTarget == At(p.target, c.operator)
  {
    hide Inv, TargetAmong;
    ParticipantsHoldTheTargets(c, p, caller);
    ParticipantsHoldTheTargets(c, p, c.operator);
  }

  /** The target of an account, if it is among the first n participants. */
  ghost function TargetAmong(p: Pool, n: nat, a: Address): nat
    requires n <= |p.participants|
  {
    if a in p.participants[..n] then At(p.target, a) else 0
  }

  lemma TargetAmongNext(p: Pool, i: nat, a: Address)
    requires i < |p.participants|
    ensures TargetAmong(p, i + 1, a) == if p.participants[i] == a then At(p.target, a) else TargetAmong(p, i, a)
  {
    assert p.participants[..i + 1] == p.participants[..i] + [p.participants[i]];
  }

  lemma ParticipantsHoldTheTargets(c: Config, p: Pool, a: Address)
    requires Inv(c, p)
    ensures TargetAmong(p, |p.participants|, a) == At(p.target, a)
  {
    hide Total, Credit;
    assert p.participants[..|p.participants|] == p.participants;
    assert p.participants == [] ==> a !in p.participants;
  }

  /** The reads that are asked for together; the operator's target follows them. */
  datatype Query = StateQuery | AttemptQuery | DeadlineQuery | RemainingQuery | TargetQuery | BlockQuery

  datatype ReReadMoments =
    ReReadMoments(state: nat, attempt: nat, deadline: nat, remaining: nat, target: nat, operatorTarget: nat)

  predicate Within(m: ReReadMoments, low: nat, high: nat) {
    && low <= m.state <= high && low <= m.attempt <= high && low <= m.deadline <= high
    && low <= m.remaining <= high && low <= m.target <= high && low <= m.operatorTarget <= high
  }

  /** The values the ledger had at those moments. */
  ghost function ReadingOf(c: Config, start: Pool, history: seq<Tx>, m: ReReadMoments, caller: Address,
                           time: nat): Reading
    requires Within(m, 0, |history|)
  {
    Reading(Moment(c, start, history, m.state).stage,
            PinnedValues(Moment(c, start, history, m.attempt).attempt, Moment(c, start, history, m.deadline).deadline,
                         At(Moment(c, start, history, m.target).target, caller),
                         At(Moment(c, start, history, m.operatorTarget).target, c.operator)),
            Remaining(c, Moment(c, start, history, m.remaining), caller), time)
  }

  lemma ReadingStays(c: Config, start: Pool, history: seq<Tx>, longer: seq<Tx>, m: ReReadMoments, caller: Address,
                     time: nat)
    requires history <= longer && Within(m, 0, |history|)
    ensures ReadingOf(c, start, longer, m, caller, time) == ReadingOf(c, start, history, m, caller, time)
  {
    hide Moment;
    MomentStays(c, start, history, longer, m.state);
    MomentStays(c, start, history, longer, m.attempt);
    MomentStays(c, start, history, longer, m.deadline);
    MomentStays(c, start, history, longer, m.remaining);
    MomentStays(c, start, history, longer, m.target);
    MomentStays(c, start, history, longer, m.operatorTarget);
  }

  /** What the last re-read asks of the ledger, each part at the moment it was asked for, and of the head's time. */
  ghost predicate Allowed(c: Config, start: Pool, history: seq<Tx>, m: ReReadMoments, signer: Address, time: nat,
                          amount: nat, reviewed: nat, pins: Pins)
    requires Within(m, 0, |history|)
  {
    var attempt, deadline := Moment(c, start, history, m.attempt).attempt,
        Moment(c, start, history, m.deadline).deadline;
    && Moment(c, start, history, m.state).stage.Funding?
    && attempt == reviewed && time < deadline
    && amount <= Remaining(c, Moment(c, start, history, m.remaining), signer)
    && Obeys(pins, PinnedValues(attempt, deadline, At(Moment(c, start, history, m.target).target, signer),
                                At(Moment(c, start, history, m.operatorTarget).target, c.operator)))
  }

  lemma StillFundableExactly(c: Config, start: Pool, history: seq<Tx>, m: ReReadMoments, signer: Address, time: nat,
                             amount: nat, reviewed: nat, pins: Pins)
    requires Within(m, 0, |history|)
    ensures StillFundable(ReadingOf(c, start, history, m, signer, time), amount, reviewed, pins)
            <==> Allowed(c, start, history, m, signer, time, amount, reviewed, pins)
  {
    hide Moment, Remaining, PinsHold, Obeys;
    PinsHoldExactly(pins, ReadingOf(c, start, history, m, signer, time).values);
  }

  lemma AllowedStays(c: Config, start: Pool, history: seq<Tx>, longer: seq<Tx>, m: ReReadMoments, signer: Address,
                     time: nat, amount: nat, reviewed: nat, pins: Pins)
    requires history <= longer && Within(m, 0, |history|)
    ensures Allowed(c, start, longer, m, signer, time, amount, reviewed, pins)
            <==> Allowed(c, start, history, m, signer, time, amount, reviewed, pins)
  {
    hide Moment, ReadingOf, Allowed, StillFundable;
    ReadingStays(c, start, history, longer, m, signer, time);
    StillFundableExactly(c, start, history, m, signer, time, amount, reviewed, pins);
    StillFundableExactly(c, start, longer, m, signer, time, amount, reviewed, pins);
  }

  /** The queries answered so far have the values the ledger had. */
  predicate Answered(pending: set<Query>, so: Reading, truth: Reading) {
    && (StateQuery !in pending ==> so.stage == truth.stage)
    && (AttemptQuery !in pending ==> so.values.attempt == truth.values.attempt)
    && (DeadlineQuery !in pending ==> so.values.deadline == truth.values.deadline)
    && (RemainingQuery !in pending ==> so.remaining == truth.remaining)
    && (TargetQuery !in pending ==> so.values.callerTarget == truth.values.callerTarget)
  }

  /** The moments with that query's set to n. */
  function AskedAt(m: ReReadMoments, query: Query, n: nat): ReReadMoments {
    match query
    case StateQuery => m.(state := n)
    case AttemptQuery => m.(attempt := n)
    case DeadlineQuery => m.(deadline := n)
    case RemainingQuery => m.(remaining := n)
    case TargetQuery => m.(target := n)
    case BlockQuery => m
  }

  /** The reading with that query's value taken from the ledger as it is. */
  function AnswerFrom(so: Reading, query: Query, c: Config, p: Pool, timestamp: nat, caller: Address): Reading {
    match query
    case StateQuery => so.(stage := p.stage)
    case AttemptQuery => so.(values := so.values.(attempt := p.attempt))
    case DeadlineQuery => so.(values := so.values.(deadline := p.deadline))
    case RemainingQuery => so.(remaining := Remaining(c, p, caller))
    case TargetQuery => so.(values := so.values.(callerTarget := At(p.target, caller)))
    case BlockQuery => so.(timestamp := timestamp)
  }

  lemma AnswerIsTrue(c: Config, start: Pool, history: seq<Tx>, m: ReReadMoments, so: Reading, query: Query,
                     pending: set<Query>, timestamp: nat, caller: Address)
    requires Within(m, 0, |history|) && Answered(pending, so, ReadingOf(c, start, history, m, caller, 0))
    ensures Answered(pending - {query},
                     AnswerFrom(so, query, c, Moment(c, start, history, |history|), timestamp, caller),
                     ReadingOf(c, start, history, AskedAt(m, query, |history|), caller, 0))
  {
    hide Moment, Remaining;
  }

  /**
   The last re-read. Its reads are answered in any order, and may straddle blocks: `m` says at which
   moment the ledger was asked for each, and `time` is what the head showed.
   */
  method AssertStillFundable(chain: Chain, caller: Address, amount: nat, reviewedAttempt: nat, pins: Pins)
    returns (still: bool, ghost m: ReReadMoments, ghost time: nat)
    requires chain.Valid()
    modifies chain`pool, chain`timestamp, chain`pending, chain`history
    ensures chain.Valid() && old(chain.history) <= chain.history
    ensures chain.Times() <= old(chain.Times()) && time in old(chain.Times())
    ensures Within(m, |old(chain.history)|, |chain.history|)
    ensures still <==> Allowed(chain.config, chain.start, chain.history, m, caller, time, amount, reviewedAttempt, pins)
  {
    hide Inv, After, PinsHold, StillFundable, Allowed, Remaining, Moment, ReadingOf, Answered, Chain.Valid;
    ghost var low := |chain.history|;
    m := ReReadMoments(low, low, low, low, low, low);
    var so := Reading(Uninitialized, PinnedValues(0, 0, 0, 0), 0, 0);
    var pending := {StateQuery, AttemptQuery, DeadlineQuery, RemainingQuery, TargetQuery, BlockQuery};
    NothingAnswered(so, ReadingOf(chain.config, chain.start, chain.history, m, caller, 0));
    while pending != {}
      invariant chain.Valid() && old(chain.history) <= chain.history
      invariant Within(m, low, |chain.history|)
      invariant chain.Times() <= old(chain.Times())
      invariant BlockQuery !in pending ==> so.timestamp in old(chain.Times())
      invariant Answered(pending, so, ReadingOf(chain.config, chain.start, chain.history, m, caller, 0))
      decreases pending
    {
      var query :| query in pending;
      ghost var earlier := chain.history;
      chain.Await();
      ReadingStays(chain.config, chain.start, earlier, chain.history, m, caller, 0);
      AnswerIsTrue(chain.config, chain.start, chain.history, m, so, query, pending, chain.timestamp, caller);
      so := AnswerFrom(so, query, chain.config, chain.pool, chain.timestamp, caller);
      m := AskedAt(m, query, |chain.history|);
      pending := pending - {query};
    }
    time := so.timestamp;
    ghost var earlier := chain.history;
    chain.Await();
    ReadingStays(chain.config, chain.start, earlier, chain.history, m, caller, 0);
    var operatorTarget := At(chain.pool.target, chain.config.operator);
    AllAnswered(chain.config, chain.start, chain.history, m, so, operatorTarget, caller);
    m := m.(operatorTarget := |chain.history|);
    so := so.(values := so.values.(operatorTarget := operatorTarget));
    still := StillFundable(so, amount, reviewedAttempt, pins);
    StillFundableExactly(chain.config, chain.start, chain.history, m, caller, time, amount, reviewedAttempt, pins);
  }

  lemma NothingAnswered(so: Reading, truth: Reading)
    ensures Answered({StateQuery, AttemptQuery, DeadlineQuery, RemainingQuery, TargetQuery, BlockQuery}, so, truth)
  {
  }

  lemma AllAnswered(c: Config, start: Pool, history: seq<Tx>, m: ReReadMoments, so: Reading, operatorTarget: nat,
                    caller: Address)
    requires Within(m, 0, |history|) && Answered({}, so, ReadingOf(c, start, history, m, caller, 0))
    requires operatorTarget == At(Moment(c, start, history, |history|).target, c.operator)
    ensures so.(values := so.values.(operatorTarget := operatorTarget))
         == ReadingOf(c, start, history, m.(operatorTarget := |history|), caller, so.timestamp)
  {
    hide Moment, Remaining;
  }

  // ---------------------------------------------------------------- the whole command

  datatype RunOutcome =
    | NotSent
    | Reverted(amount: nat)
    | Credited(amount: nat)
    | NotCredited(amount: nat, verdict: FundingVerdict)

  function SendOf(signer: Address, amount: nat, viaTransfer: bool, now: nat): Tx {
    Tx(now, signer, if viaTransfer then Transfer(amount) else Action.Fund(amount))
  }

  /** The sender funded the reviewed attempt again, or it was closed after its deadline. */
  ghost predicate ReviewedIsExplained(c: Config, start: Pool, history: seq<Tx>, r: Reads, signer: Address,
                                      reviewed: nat)
    requires InOrder(r, |history|)
  {
    && ExplainedSince(c, start, history, r.allocation, signer, reviewed)
    && (ExplainedSince(c, start, history, r.reRead, signer, reviewed)
        || !Live(Moment(c, start, history, r.reRead)))
    && (r.state <= r.attempt ==> ExplainedSince(c, start, history, r.reRead, signer, reviewed))
  }

  /** The reviewed attempt was closed after its deadline before the send was mined. */
  ghost predicate ReviewedWasClosed(c: Config, start: Pool, history: seq<Tx>, r: Reads, reviewed: nat)
    requires InOrder(r, |history|)
  {
    && ClosedSince(c, start, history, r.allocation, reviewed)
    && (ClosedSince(c, start, history, r.reRead, reviewed) || !Live(Moment(c, start, history, r.reRead)))
    && (r.state <= r.attempt ==> ClosedSince(c, start, history, r.reRead, reviewed))
  }

  /**
   What may be said of a run that sent `tx` after `history`, with its reads at those moments and the
   reviewed attempt's number.
   */
  ghost predicate Accounted(c: Config, start: Pool, history: seq<Tx>, r: Reads, reviewed: nat, tx: Tx,
                            outcome: RunOutcome)
    requires InOrder(r, |history|) && !outcome.NotSent?
  {
    var signer, before := tx.caller, After(c, start, history);
    var after := Next(c, before, tx);
    && Read(c, start, history, r, signer, reviewed)
    && 0 < outcome.amount <= Remaining(c, Moment(c, start, history, r.remaining), signer)
    && match outcome
       case Reverted(_) => after == before
       case Credited(amount) =>
         && before.stage.Funding? && At(after.active, signer) == At(before.active, signer) + amount
         && (before.attempt == reviewed || ReviewedWasClosed(c, start, history, r, reviewed))
       case NotCredited(amount, verdict) =>
         && tx.action.Transfer? && before.stage.ToppedUp? && verdict == AcceptedAsProceeds([amount])
         && ReviewedIsExplained(c, start, history, r, signer, reviewed)
       case NotSent => false
  }

  /** The receipt of that transaction, or its absence, led to that outcome. */
  ghost predicate Reported(c: Config, before: Pool, tx: Tx, outcome: RunOutcome) {
    var receipt := Emitted(c.pool, LogsOf(c, before, tx));
    var funded, proceeds := FundingAmounts(receipt, c.pool, tx.caller), ProceedsAmounts(receipt, c.pool, tx.caller);
    match outcome
    case NotSent => false
    case Reverted(_) => Step(c, before, tx).Reverted?
    case Credited(amount) => Step(c, before, tx).Done? && funded == [amount]
    case NotCredited(amount, verdict) =>
      Step(c, before, tx).Done? && funded != [amount] && (proceeds != [] ==> verdict == AcceptedAsProceeds(proceeds))
  }

  lemma SendIsAccounted(c: Config, start: Pool, history: seq<Tx>, r: Reads, reviewed: nat, tx: Tx, outcome: RunOutcome)
    requires Inv(c, start) && InOrder(r, |history|) && !outcome.NotSent?
    requires Read(c, start, history, r, tx.caller, reviewed)
    requires 0 < outcome.amount <= Remaining(c, Moment(c, start, history, r.remaining), tx.caller)
    requires tx.action == Action.Fund(outcome.amount) || tx.action == Transfer(outcome.amount)
    requires Reported(c, After(c, start, history), tx, outcome)
    ensures Accounted(c, start, history, r, reviewed, tx, outcome)
  {
    var before := After(c, start, history);
    assert Moment(c, start, history, |history|) == before by {
      assert history[..|history|] == history;
    }
    hide Inv, After, Remaining, Read, Moment, Reported, ReviewedIsExplained, ReviewedWasClosed;
    RunKeepsInv(c, start, history);
    OutcomeIsTrue(c, before, tx, outcome);
    hide Next;
    if before.attempt != reviewed {
      WasClosed(c, start, history, r, tx.caller, reviewed);
    }
    if before.stage.ToppedUp? {
      IsExplained(c, start, history, r, tx.caller, reviewed);
    }
  }

  lemma WasClosed(c: Config, start: Pool, history: seq<Tx>, r: Reads, signer: Address, reviewed: nat)
    requires Inv(c, start) && InOrder(r, |history|) && Read(c, start, history, r, signer, reviewed)
    requires Moment(c, start, history, |history|).attempt != reviewed
    ensures ReviewedWasClosed(c, start, history, r, reviewed)
  {
    hide Inv, ClosedSince, Read, Moment;
    OtherAttemptMeansClosed(c, start, history, r, signer, reviewed);
  }

  lemma IsExplained(c: Config, start: Pool, history: seq<Tx>, r: Reads, signer: Address, reviewed: nat)
    requires Inv(c, start) && InOrder(r, |history|) && Read(c, start, history, r, signer, reviewed)
    requires Moment(c, start, history, |history|).stage.ToppedUp?
    ensures ReviewedIsExplained(c, start, history, r, signer, reviewed)
  {
    hide Inv, ExplainedSince, Read, Moment;
    ReviewedAttemptIsExplained(c, start, history, r, signer, reviewed);
  }

  /** What the receipt says of one transaction is what happened to the ledger. */
  lemma OutcomeIsTrue(c: Config, before: Pool, tx: Tx, outcome: RunOutcome)
    requires Inv(c, before) && Reported(c, before, tx, outcome) && !outcome.NotSent? && outcome.amount > 0
    requires tx.action == Action.Fund(outcome.amount) || tx.action == Transfer(outcome.amount)
    ensures var after := Next(c, before, tx);
            match outcome
            case Reverted(_) => after == before
            case Credited(amount) =>
              before.stage.Funding? && At(after.active, tx.caller) == At(before.active, tx.caller) + amount
            case NotCredited(amount, verdict) =>
              tx.action.Transfer? && before.stage.ToppedUp? && verdict == AcceptedAsProceeds([amount])
            case NotSent => true
  {
    hide Inv, FundingAmounts, ProceedsAmounts, Emitted, LogsOf, Step;
    if Step(c, before, tx).Done? {
      ReceiptTellsFundingFromProceeds(c, before, tx, outcome.amount);
      if !before.stage.Funding? {
        AcceptedOutsideFunding(c, before, tx, outcome.amount);
      }
    }
  }

  lemma AcceptedOutsideFunding(c: Config, p: Pool, tx: Tx, amount: nat)
    requires tx.action == Action.Fund(amount) || tx.action == Transfer(amount)
    requires Step(c, p, tx).Done? && !p.stage.Funding?
    ensures tx.action.Transfer? && p.stage.ToppedUp?
  {
    FundRefusedOutsideFunding(c, p, tx.caller, tx.now, amount);
    hide FundEffect;
  }

  lemma WhatWasRead(c: Config, start: Pool, history: seq<Tx>, r: Reads, m: ReReadMoments, signer: Address, time: nat,
                    amount: nat, reviewed: nat, pins: Pins)
    requires InOrder(r, |history|) && Within(m, 0, |history|)
    requires r.state == m.state && r.attempt == m.attempt && r.remaining == m.remaining && amount > 0
    requires Moment(c, start, history, r.review).attempt == reviewed
    requires Remaining(c, Moment(c, start, history, r.allocation), signer) > 0
    requires Allowed(c, start, history, m, signer, time, amount, reviewed, pins)
    ensures Read(c, start, history, r, signer, reviewed)
    ensures amount <= Remaining(c, Moment(c, start, history, r.remaining), signer)
  {
    hide Moment, Remaining, Obeys;
  }

  /** When nothing is mined, the command sends this amount if it sends any. */
  ghost function AmountAt(c: Config, p: Pool, signer: Address, declared: Option<nat>): nat {
    match declared
    case None => Remaining(c, p, signer)
    case Some(amount) => amount
  }

  /** An open attempt before its deadline, pins that hold, and an amount within the remaining allocation. */
  ghost predicate Sends(c: Config, p: Pool, signer: Address, declared: Option<nat>, pins: Pins, time: nat) {
    && p.stage.Funding? && time < p.deadline
    && 0 < AmountAt(c, p, signer, declared) <= Remaining(c, p, signer)
    && Obeys(pins, PinnedValues(p.attempt, p.deadline, At(p.target, signer), At(p.target, c.operator)))
  }

  /** Asked at one moment, the re-read allows what the ledger of that moment does. */
  lemma QuietReRead(c: Config, start: Pool, history: seq<Tx>, m: ReReadMoments, signer: Address, time: nat,
                    declared: Option<nat>, pins: Pins)
    requires Within(m, |history|, |history|)
    requires var p := After(c, start, history);
             0 < AmountAt(c, p, signer, declared) <= Remaining(c, p, signer)
    ensures var p := After(c, start, history);
            Allowed(c, start, history, m, signer, time, AmountAt(c, p, signer, declared), p.attempt, pins)
            <==> Sends(c, p, signer, declared, pins, time)
  {
    assert history[..|history|] == history;
    hide After, Remaining, Obeys, AmountAt;
  }

  lemma SendingNeeds(c: Config, p: Pool, signer: Address, declared: Option<nat>, pins: Pins, time: nat)
    requires Sends(c, p, signer, declared, pins, time)
    ensures Obeys(pins, PinnedAt(c, p, signer)) && 0 < AmountAt(c, p, signer, declared) <= Remaining(c, p, signer)
  {
    hide Remaining, Obeys, AmountAt;
  }

  /**
   The whole command. Whatever is mined around it, at most one transaction is sent, of the declared
   amount, or else of all that was left of the allocation when it was read. It reverts and
   nothing moves, or it is credited in full, in the reviewed attempt unless that one was closed in
   the meantime, and reported so, or it became proceeds of a topped-up pool and is reported so; and
   this last needs the sender to have funded the reviewed attempt a second time, or that attempt to
   have been closed after its deadline, as `ReviewedAttemptIsExplained` and
   `OtherAttemptMeansClosed` say, whichever blocks the reads straddle.

   With nothing else mined it sends exactly when the attempt is open at the head's time, the pins hold
   and the amount fits, and it is then credited unless the block that includes it is past the deadline.
   */
  method Fund(chain: Chain, signer: Address, declared: Option<nat>, pins: Pins, viaTransfer: bool, minedAt: nat)
    returns (outcome: RunOutcome, ghost r: Reads, ghost reviewedAttempt: nat, ghost m: ReReadMoments, ghost time: nat)
    requires chain.Valid()
    modifies chain
    ensures chain.Valid() && old(chain.history) <= chain.history && time in old(chain.Times())
    ensures chain.submitted == old(chain.submitted)
                               + if outcome.NotSent? then []
                                 else [Tx(minedAt, signer, if viaTransfer then Transfer(outcome.amount)
                                                           else Action.Fund(outcome.amount))]
    ensures !outcome.NotSent? ==> chain.history != [] && |old(chain.history)| < |chain.history|
    ensures !outcome.NotSent? ==>
              var n := |chain.history| - 1;
              var history, tx := chain.history[..n], chain.history[n];
              && |old(chain.history)| <= r.review && InOrder(r, n) && chain.submitted == old(chain.submitted) + [tx]
              && Within(m, r.reRead, n)
              && outcome.amount
                 == AmountAt(chain.config, Moment(chain.config, chain.start, history, r.allocation), signer, declared)
              && Allowed(chain.config, chain.start, history, m, signer, time, outcome.amount, reviewedAttempt, pins)
              && chain.pool == Next(chain.config, After(chain.config, chain.start, history), tx)
              && Accounted(chain.config, chain.start, history, r, reviewedAttempt, tx, outcome)
    ensures var p := old(chain.pool);
            chain.history == old(chain.history) + chain.submitted[|old(chain.submitted)|..] ==>
              if !Sends(chain.config, p, signer, declared, pins, time) then outcome == NotSent
              else if minedAt <= p.deadline
                then outcome == RunOutcome.Credited(AmountAt(chain.config, p, signer, declared))
              else outcome == RunOutcome.Reverted(AmountAt(chain.config, p, signer, declared))
  {
    hide Inv, After, Next, Remaining, Reported, Accounted, Moment, Read, Allowed, Sends, AmountAt;
    outcome := NotSent;
    var amount;
    amount, r, reviewedAttempt, m, time := DecideAmount(chain, signer, declared, pins);
    if amount.None? {
      return;
    }
    ghost var history, before := chain.history, chain.pool;
    var tx := SendOf(signer, amount.value, viaTransfer, minedAt);
    outcome := SendAndCheck(chain, tx, amount.value);
    SendIsAccounted(chain.config, chain.start, history, r, reviewedAttempt, tx, outcome);
    assert chain.history[..|history|] == history;
    if history == old(chain.history) {
      QuietSend(chain.config, before, tx, declared, pins, time, outcome);
    }
  }

  /** Against the ledger the re-read saw, the send is credited up to the deadline and reverts after it. */
  lemma QuietSend(c: Config, p: Pool, tx: Tx, declared: Option<nat>, pins: Pins, time: nat, outcome: RunOutcome)
    requires Inv(c, p) && Sends(c, p, tx.caller, declared, pins, time) && !outcome.NotSent?
    requires outcome.amount == AmountAt(c, p, tx.caller, declared)
    requires tx.action == Action.Fund(outcome.amount) || tx.action == Transfer(outcome.amount)
    requires Reported(c, p, tx, outcome)
    ensures outcome == if tx.now <= p.deadline then RunOutcome.Credited(outcome.amount)
                       else RunOutcome.Reverted(outcome.amount)
  {
    hide Inv, FundingAmounts, ProceedsAmounts, Emitted, LogsOf, Step, Remaining, Obeys, Next;
    FundingSucceedsExactly(c, p, tx, outcome.amount);
    OutcomeIsTrue(c, p, tx, outcome);
  }

  /** All of the command before the send: the review, the allocation, the amount, and the last re-read. */
  method DecideAmount(chain: Chain, signer: Address, declared: Option<nat>, pins: Pins)
    returns (decided: Option<nat>, ghost r: Reads, ghost reviewedAttempt: nat, ghost m: ReReadMoments, ghost time: nat)
    requires chain.Valid()
    modifies chain`pool, chain`timestamp, chain`pending, chain`history
    ensures chain.Valid() && old(chain.history) <= chain.history && time in old(chain.Times())
    ensures decided.Some? ==>
              && 0 < decided.value
              && |old(chain.history)| <= r.review && InOrder(r, |chain.history|) && Within(m, r.reRead, |chain.history|)
              && decided.value
                 == AmountAt(chain.config, Moment(chain.config, chain.start, chain.history, r.allocation), signer,
                             declared)
              && Allowed(chain.config, chain.start, chain.history, m, signer, time, decided.value, reviewedAttempt,
                         pins)
              && Read(chain.config, chain.start, chain.history, r, signer, reviewedAttempt)
              && decided.value <= Remaining(chain.config,
                                            Moment(chain.config, chain.start, chain.history, r.remaining), signer)
    ensures var p := old(chain.pool);
            chain.history == old(chain.history) ==>
              decided == if Sends(chain.config, p, signer, declared, pins, time)
                         then Some(AmountAt(chain.config, p, signer, declared)) else None
  {
    hide Inv, After, Remaining, AmountAt, Moment, TargetReadAt, Allowed, Obeys, Read, Chain.Valid, Chain.Times;
    decided, r, reviewedAttempt := None, Reads(0, 0, 0, 0, 0, 0), 0;
    m, time := ReReadMoments(0, 0, 0, 0, 0, 0), chain.timestamp;
    HeadOf(chain);
    var reviewed;
    ghost var at;
    reviewed, at := PrintAndCheckFundingReview(chain, signer, pins);
    if reviewed.None? {
      return;
    }
    reviewedAttempt := reviewed.value.attempt;
    ghost var reviewHistory, allocation, reRead := chain.history, 0, 0;
    decided, allocation, reRead, m, time := ConfirmAmount(chain, signer, declared, reviewed.value.attempt, pins);
    if decided.Some? {
      ghost var reReadHistory := chain.history;
      chain.Await();
      r := Reads(at.attempt, allocation, reRead, m.state, m.attempt, m.remaining);
      MomentStays(chain.config, chain.start, reviewHistory, chain.history, at.attempt);
      MomentStays(chain.config, chain.start, reReadHistory, chain.history, allocation);
      AllowedStays(chain.config, chain.start, reReadHistory, chain.history, m, signer, time, decided.value,
                   reviewedAttempt, pins);
      WhatWasRead(chain.config, chain.start, chain.history, r, m, signer, time, decided.value, reviewedAttempt, pins);
    }
  }

  /** What follows the review: the allocation, the amount, and the last re-read, against the reviewed attempt. */
  method ConfirmAmount(chain: Chain, signer: Address, declared: Option<nat>, reviewed: nat, pins: Pins)
    returns (decided: Option<nat>, ghost allocation: nat, ghost reRead: nat, ghost m: ReReadMoments, ghost time: nat)
    requires chain.Valid()
    modifies chain`pool, chain`timestamp, chain`pending, chain`history
    ensures chain.Valid() && old(chain.history) <= chain.history && time in old(chain.Times())
    ensures decided.Some? ==>
              && |old(chain.history)| <= allocation <= reRead && Within(m, reRead, |chain.history|)
              && Allowed(chain.config, chain.start, chain.history, m, signer, time, decided.value, reviewed, pins)
    ensures decided.Some? ==>
              var p := Moment(chain.config, chain.start, chain.history, allocation);
              0 < decided.value == AmountAt(chain.config, p, signer, declared) <= Remaining(chain.config, p, signer)
    ensures chain.history == old(chain.history) && reviewed == old(chain.pool).attempt ==>
              var p := old(chain.pool);
              decided == if Sends(chain.config, p, signer, declared, pins, time)
                         then Some(AmountAt(chain.config, p, signer, declared)) else None
  {
    hide Inv, After, Remaining, AmountAt, Moment, Allowed, Obeys, Sends, Chain.Valid, Chain.Times;
    allocation, reRead, m, time := 0, 0, ReReadMoments(0, 0, 0, 0, 0, 0), chain.timestamp;
    HeadOf(chain);
    if Sends(chain.config, chain.pool, signer, declared, pins, time) {
      SendingNeeds(chain.config, chain.pool, signer, declared, pins, time);
    }
    decided := ChooseAmount(chain, signer, declared);
    if decided.None? {
      return;
    }
    ghost var allocationHistory := chain.history;
    chain.Await();
    allocation, reRead := |allocationHistory|, |chain.history|;
    var still;
    still, m, time := AssertStillFundable(chain, signer, decided.value, reviewed, pins);
    if chain.history == old(chain.history) && reviewed == old(chain.pool).attempt {
      QuietReRead(chain.config, chain.start, chain.history, m, signer, time, declared, pins);
    }
    if !still {
      decided := None;
    }
    MomentStays(chain.config, chain.start, allocationHistory, chain.history, allocation);
  }

  /** The allocation as it is now: the amount declared, or else all of it, unless that is zero or does not fit. */
  method ChooseAmount(chain: Chain, signer: Address, declared: Option<nat>) returns (amount: Option<nat>)
    requires chain.Valid()
    modifies chain`pool, chain`timestamp, chain`pending, chain`history
    ensures chain.Valid() && old(chain.history) <= chain.history && chain.Times() <= old(chain.Times())
    ensures chain.history == old(chain.history) ==> chain.pool == old(chain.pool)
    ensures Moment(chain.config, chain.start, chain.history, |chain.history|) == chain.pool
    ensures var left, meant := Remaining(chain.config, chain.pool, signer),
                               AmountAt(chain.config, chain.pool, signer, declared);
            amount == if 0 < meant <= left then Some(meant) else None
  {
    hide Inv, After, Remaining, Moment;
    chain.Await();
    var remaining := Remaining(chain.config, chain.pool, signer);
    if remaining <= 0 {
      return None;
    }
    amount := if declared.Some? then declared else Some(remaining);
    if amount.value > remaining || amount.value == 0 {
      amount := None;
    }
  }

  lemma HeadOf(chain: Chain)
    requires chain.Valid()
    ensures chain.pool == After(chain.config, chain.start, chain.history) && chain.timestamp in chain.Times()
  {
  }

  method SendAndCheck(chain: Chain, tx: Tx, amount: nat) returns (outcome: RunOutcome)
    requires chain.Valid()
    modifies chain`pool, chain`history, chain`submitted
    ensures chain.Valid() && chain.history == old(chain.history) + [tx]
            && chain.submitted == old(chain.submitted) + [tx]
    ensures chain.pool == Next(chain.config, old(chain.pool), tx)
    ensures !outcome.NotSent? && outcome.amount == amount && Reported(chain.config, old(chain.pool), tx, outcome)
  {
    hide Inv, After, Step, FundingAmounts, ProceedsAmounts, Emitted, LogsOf, Next;
    var receipt := chain.Submit(tx);
    if receipt.None? {
      return RunOutcome.Reverted(amount);
    }
    var verdict := CheckFundingWasCredited(receipt.value, chain.config.pool, tx.caller, amount);
    outcome := if verdict.Credited? then RunOutcome.Credited(amount) else NotCredited(amount, verdict);
  }
}
