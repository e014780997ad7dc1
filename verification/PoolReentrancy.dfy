/**
 Re-entrant calls. A payout hands control to its receiver, which may call the pool again before the
 payout's own events are emitted; five entry points share a lock, the others do not. Every such call
 tree is shown to leave the same ledger, and to log the same amounts, as a flat run of transactions.
 */
module PoolReentrancy {
  import opened Amounts
  import opened Options
  import opened PoolLedger
  import opened PoolInvariant
  import opened PoolHistory

  /** A call and the calls its receiver makes while it is being paid. */
  datatype Call = Call(tx: Tx, inner: seq<Call>)

  predicate Guarded(a: Action) {
    a.Commit? || a.TopUp? || a.RequestExit? || a.RefundTo? || a.ClaimTo?
  }

  /** The receiver gets control only when ETH is actually sent to it. */
  predicate HandsOver(a: Action) {
    a.RefundTo? || a.ClaimTo? || (a.RequestExit? && a.fee.Some? && a.value != a.fee.value)
  }

  /** The ledger and the logs after a call: effects first, then the receiver's calls, then the events. */
  function Exec(c: Config, p: Pool, locked: bool, call: Call): (Pool, seq<Log>)
    decreases call
  {
    if locked && Guarded(call.tx.action) then (p, [])
    else
      match EffectOf(c, p, call.tx)
      case Refused(_) => (p, [])
      case Effect(q, logs, snapshot) =>
        var (r, nested) := if HandsOver(call.tx.action) then ExecAll(c, q, true, call.inner) else (q, []);
        if snapshot && Gross(r) < 0 then (p, [])
        else (r, nested + logs + (if snapshot then [SnapshotOf(r)] else []))
  }

  function ExecAll(c: Config, p: Pool, locked: bool, calls: seq<Call>): (Pool, seq<Log>)
    decreases calls
  {
    if calls == [] then (p, [])
    else
      var (q, logs) := Exec(c, p, locked, calls[0]);
      var (r, rest) := ExecAll(c, q, locked, calls[1..]);
      (r, logs + rest)
  }

  /** The transactions of a call tree in the order their effects happen. */
  function Flat(c: Config, p: Pool, locked: bool, call: Call): seq<Tx>
    decreases call
  {
    if locked && Guarded(call.tx.action) then []
    else
      match EffectOf(c, p, call.tx)
      case Refused(_) => []
      case Effect(q, _, _) =>
        [call.tx] + if HandsOver(call.tx.action) then FlatAll(c, q, true, call.inner) else []
  }

  function FlatAll(c: Config, p: Pool, locked: bool, calls: seq<Call>): seq<Tx>
    decreases calls
  {
    if calls == [] then []
    else Flat(c, p, locked, calls[0]) + FlatAll(c, Exec(c, p, locked, calls[0]).0, locked, calls[1..])
  }

  /** `txs` is a flat run with the same final ledger and the same logged amounts. */
  ghost predicate SameAsRun(c: Config, p: Pool, result: (Pool, seq<Log>), txs: seq<Tx>) {
    && result.0 == After(c, p, txs)
    && forall k, who :: Logged(result.1, k, who) == Logged(Trail(c, p, txs), k, who)
  }

  lemma EffectThenRun(c: Config, p: Pool, tx: Tx, inner: seq<Tx>, r: Pool, nested: seq<Log>)
    requires Inv(c, p) && EffectOf(c, p, tx).Effect?
    requires SameAsRun(c, EffectOf(c, p, tx).pool, (r, nested), inner)
    ensures Inv(c, r) && Gross(r) >= 0
    ensures var e := EffectOf(c, p, tx);
            SameAsRun(c, p, (r, nested + e.logs + (if e.snapshot then [SnapshotOf(r)] else [])), [tx] + inner)
  {
    hide Inv, EffectOf, Logged, Trail, After;
    var e := EffectOf(c, p, tx);
    StepKeepsInv(c, p, tx);
    EffectKeepsInv(c, p, tx);
    InvGross(c, e.pool);
    RunKeepsInv(c, e.pool, inner);
    InvGross(c, r);
    AfterConcat(c, p, [tx], inner);
    AfterOne(c, p, tx);
    var all := nested + e.logs + (if e.snapshot then [SnapshotOf(r)] else []);
    forall k, who ensures Logged(all, k, who) == Logged(Trail(c, p, [tx] + inner), k, who) {
      LoggedConcat(nested, e.logs, k, who);
      LoggedConcat(LogsOf(c, p, tx), Trail(c, e.pool, inner), k, who);
      if e.snapshot {
        SnapshotsMoveNothing(nested + e.logs, SnapshotOf(r), k, who);
        SnapshotsMoveNothing(e.logs, SnapshotOf(e.pool), k, who);
      } else {
        assert all == nested + e.logs;
      }
    }
  }

  lemma SnapshotsMoveNothing(logs: seq<Log>, snapshot: Log, k: Kind, who: Option<Address>)
    requires snapshot.AccountingSnapshot?
    ensures Logged(logs + [snapshot], k, who) == Logged(logs, k, who)
  {
    LoggedConcat(logs, [snapshot], k, who);
    LoggedOne(snapshot, k, who);
  }

  /** Re-entrancy adds no behaviour: every call tree does what a flat run of its effective calls does. */
  lemma {:induction false} CallIsFlatRun(c: Config, p: Pool, locked: bool, call: Call)
    requires Inv(c, p)
    ensures SameAsRun(c, p, Exec(c, p, locked, call), Flat(c, p, locked, call))
    ensures Inv(c, Exec(c, p, locked, call).0)
    decreases call
  {
    hide Inv, EffectOf, Logged;
    NothingIsAnEmptyRun(c, p);
    if !(locked && Guarded(call.tx.action)) && EffectOf(c, p, call.tx).Effect? {
      var q := EffectOf(c, p, call.tx).pool;
      EffectKeepsInv(c, p, call.tx);
      if HandsOver(call.tx.action) {
        CallsAreFlatRun(c, q, true, call.inner);
        var (r, nested) := ExecAll(c, q, true, call.inner);
        EffectThenRun(c, p, call.tx, FlatAll(c, q, true, call.inner), r, nested);
      } else {
        NothingIsAnEmptyRun(c, q);
        EffectThenRun(c, p, call.tx, [], q, []);
      }
    }
  }

  lemma NothingIsAnEmptyRun(c: Config, p: Pool)
    ensures SameAsRun(c, p, (p, []), [])
  {
  }

  lemma {:induction false} CallsAreFlatRun(c: Config, p: Pool, locked: bool, calls: seq<Call>)
    requires Inv(c, p)
    ensures SameAsRun(c, p, ExecAll(c, p, locked, calls), FlatAll(c, p, locked, calls))
    ensures Inv(c, ExecAll(c, p, locked, calls).0)
    decreases calls
  {
    hide Inv, Logged, Exec, Flat;
    if calls == [] {
      NothingIsAnEmptyRun(c, p);
    } else {
      var (q, logs) := Exec(c, p, locked, calls[0]);
      CallIsFlatRun(c, p, locked, calls[0]);
      CallsAreFlatRun(c, q, locked, calls[1..]);
      var first, rest := Flat(c, p, locked, calls[0]), FlatAll(c, q, locked, calls[1..]);
      AfterConcat(c, p, first, rest);
      forall k, who
        ensures Logged(ExecAll(c, p, locked, calls).1, k, who) == Logged(Trail(c, p, first + rest), k, who)
      {
        LoggedConcat(logs, ExecAll(c, q, locked, calls[1..]).1, k, who);
        LoggedConcat(Trail(c, p, first), Trail(c, q, rest), k, who);
      }
    }
  }

  /** While one payout is being delivered nothing the lock guards takes effect, at any depth. */
  lemma {:induction false} NoPayoutInsideAPayout(c: Config, p: Pool, calls: seq<Call>)
    ensures forall tx :: tx in FlatAll(c, p, true, calls) ==> !Guarded(tx.action)
    decreases calls
  {
    if calls != [] {
      NoPayoutInsideAPayout(c, Exec(c, p, true, calls[0]).0, calls[1..]);
    }
  }

  /** The transactions that give their receiver control: claims, refunds, and exits that return an excess. */
  ghost predicate PaysOut(a: Action) {
    match a
    case ClaimTo(_, _) => true
    case RefundTo(_, _) => true
    case RequestExit(value, _, fee, _, _) => fee.Some? && fee.value < value
    case _ => false
  }

  /** The entry points that do not share the lock, and ETH that needs no entry point. */
  ghost predicate Unlocked(a: Action) {
    match a
    case Open(_, _) => true
    case Fund(_) => true
    case Transfer(_) => true
    case Close => true
    case Force(_) => true
    case _ => false
  }

  /**
   What a receiver does while it is being paid takes effect at once, on the ledger the payout has already
   changed and before the payout's own logs, if it needs no lock; if it does, nothing happens.
   */
  lemma ReceiverActsAtOnce(c: Config, p: Pool, tx: Tx, reaction: Tx)
    requires Inv(c, p) && Step(c, p, tx).Done? && PaysOut(tx.action)
    ensures var (q, logs) := Exec(c, p, false, Call(tx, [Call(reaction, [])]));
            if Unlocked(reaction.action)
            then q == Next(c, Next(c, p, tx), reaction) && LogsOf(c, Next(c, p, tx), reaction) <= logs
            else q == Next(c, p, tx) && logs == LogsOf(c, p, tx)
  {
    hide Inv, EffectOf, Exec;
    var after := Next(c, p, tx);
    StepKeepsInv(c, p, tx);
    StepKeepsInv(c, after, reaction);
    OneNestedCall(c, p, tx, reaction);
    if Unlocked(reaction.action) {
      NestedAlone(c, after, reaction);
      InvGross(c, Next(c, after, reaction));
    }
  }

  lemma HandsOverExactly(c: Config, p: Pool, tx: Tx)
    requires EffectOf(c, p, tx).Effect?
    ensures HandsOver(tx.action) <==> PaysOut(tx.action)
  {
    if tx.action.RequestExit? {
      hide Remaining, Claimable;
      assert tx.action.fee.Some? && tx.action.fee.value <= tx.action.value;
    }
  }

  lemma Unnested(logs: seq<Log>, snapshots: seq<Log>)
    ensures [] + logs + snapshots == logs + snapshots && logs + [] == logs
  {
  }

  lemma OneNestedCall(c: Config, p: Pool, tx: Tx, reaction: Tx)
    requires EffectOf(c, p, tx).Effect? && PaysOut(tx.action)
    ensures var Effect(q, logs, snapshot) := EffectOf(c, p, tx);
            var (r, nested) := Exec(c, q, true, Call(reaction, []));
            Exec(c, p, false, Call(tx, [Call(reaction, [])]))
            == if snapshot && Gross(r) < 0 then (p, [])
               else (r, nested + logs + (if snapshot then [SnapshotOf(r)] else []))
    ensures !Unlocked(reaction.action) ==>
              Exec(c, EffectOf(c, p, tx).pool, true, Call(reaction, [])) == (EffectOf(c, p, tx).pool, [])
  {
    HandsOverExactly(c, p, tx);
    hide EffectOf;
    var Effect(q, logs, snapshot) := EffectOf(c, p, tx);
    var inner := [Call(reaction, [])];
    assert inner[1..] == [];
    var (r, nested) := Exec(c, q, true, inner[0]);
    assert ExecAll(c, r, true, inner[1..]) == (r, []);
    Unnested(nested, []);
    assert ExecAll(c, q, true, inner) == (r, nested);
  }

  lemma NestedAlone(c: Config, p: Pool, tx: Tx)
    requires Inv(c, p) && Unlocked(tx.action)
    ensures Exec(c, p, true, Call(tx, [])) == (Next(c, p, tx), LogsOf(c, p, tx))
  {
    hide Inv, EffectOf;
    StepKeepsInv(c, p, tx);
    InvGross(c, Next(c, p, tx));
    var e := EffectOf(c, p, tx);
    if e.Effect? {
      Unnested(e.logs, if e.snapshot then [SnapshotOf(e.pool)] else []);
    }
  }

  /** Nobody else gets control: the calls listed for a transaction that pays nothing out do not happen. */
  lemma NoPayoutNoReaction(c: Config, p: Pool, call: Call)
    requires Inv(c, p) && !PaysOut(call.tx.action)
    ensures Exec(c, p, false, call) == (Next(c, p, call.tx), LogsOf(c, p, call.tx))
  {
    hide Inv, EffectOf, HandsOver;
    StepKeepsInv(c, p, call.tx);
    InvGross(c, Next(c, p, call.tx));
    var e := EffectOf(c, p, call.tx);
    if e.Effect? {
      HandsOverExactly(c, p, call.tx);
      Unnested(e.logs, if e.snapshot then [SnapshotOf(e.pool)] else []);
    }
  }
}
