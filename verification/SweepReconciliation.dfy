/**
 The sweep command's credit check, against every block that could include the sweep: pool
 transactions by anybody, payments into the forwarder, unlogged ETH, and other people's sweeps.
 */
module SweepReconciliation {
  import opened Amounts
  import opened Options
  import opened PoolLedger
  import opened PoolInvariant
  import opened PoolHistory
  import opened Receipts
  import opened Selections

  // ---------------------------------------------------------------- the check

  datatype Outflow = Outflow(event: string, amount: nat)

  function OutflowIn(l: Log): seq<Outflow> {
    match l
    case Claimed(_, _, v) => [Outflow("Claimed", v)]
    case Refunded(_, _, v) => [Outflow("Refunded", v)]
    case ValidatorTopUpSubmitted => [Outflow("ValidatorTopUpSubmitted", TOP_UP)]
    case _ => []
  }

  function Outflows(logs: seq<ChainLog>, pool: Address): seq<Outflow> {
    if logs == [] then []
    else
      var l := logs[|logs| - 1];
      Outflows(logs[..|logs| - 1], pool) + if l.emitter == pool && l.PoolLog? then OutflowIn(l.log) else []
  }

  function TotalOutflow(outflows: seq<Outflow>): nat {
    if outflows == [] then 0 else TotalOutflow(outflows[..|outflows| - 1]) + outflows[|outflows| - 1].amount
  }

  method DecodePoolOutflows(logs: seq<ChainLog>, pool: Address) returns (outflows: seq<Outflow>)
    ensures outflows == Outflows(logs, pool)
  {
    outflows := [];
    var i := 0;
    while i < |logs|
      invariant 0 <= i <= |logs| && outflows == Outflows(logs[..i], pool)
    {
      assert logs[..i + 1][..i] == logs[..i];
      if logs[i].emitter == pool && logs[i].PoolLog? {
        outflows := outflows + OutflowIn(logs[i].log);
      }
      i := i + 1;
    }
    assert logs[..i] == logs;
  }

  function Swept(receipt: seq<ChainLog>, forwarder: Address, signer: Address): seq<nat> {
    if receipt == [] then []
    else
      var l := receipt[|receipt| - 1];
      Swept(receipt[..|receipt| - 1], forwarder, signer)
      + if l.emitter == forwarder && l.SweptLog? && l.caller == signer then [l.amount] else []
  }

  method SweptAmounts(receipt: seq<ChainLog>, forwarder: Address, signer: Address) returns (amounts: seq<nat>)
    ensures amounts == Swept(receipt, forwarder, signer)
  {
    amounts := [];
    var i := 0;
    while i < |receipt|
      invariant 0 <= i <= |receipt| && amounts == Swept(receipt[..i], forwarder, signer)
    {
      var l := receipt[i];
      assert receipt[..i + 1][..i] == receipt[..i];
      if l.emitter == forwarder && l.SweptLog? && l.caller == signer {
        amounts := amounts + [l.amount];
      }
      i := i + 1;
    }
    assert receipt[..i] == receipt;
  }

  ghost predicate OwnSwept(l: ChainLog, forwarder: Address, signer: Address) {
    l.SweptLog? && l.emitter == forwarder && l.caller == signer
  }

  /** The amounts collected are those of the forwarder's own logs for the signer, in order. */
  ghost function SweptLogged(receipt: seq<ChainLog>, forwarder: Address, signer: Address): map<int, nat> {
    map i | 0 <= i < |receipt| && OwnSwept(receipt[i], forwarder, signer) :: receipt[i].amount
  }

  lemma {:induction false} SweptExactly(receipt: seq<ChainLog>, forwarder: Address, signer: Address)
    ensures InOrder(Swept(receipt, forwarder, signer), SweptLogged(receipt, forwarder, signer))
  {
    if receipt == [] {
      NothingInOrder(SweptLogged(receipt, forwarder, signer));
    } else {
      var n := |receipt| - 1;
      SweptExactly(receipt[..n], forwarder, signer);
      LastSwept(receipt, forwarder, signer);
      SweptLoggedNext(receipt, forwarder, signer);
      hide Swept, SweptLogged, InOrder, Before;
      if OwnSwept(receipt[n], forwarder, signer) {
        InOrderNext(Swept(receipt[..n], forwarder, signer), SweptLogged(receipt[..n], forwarder, signer), n,
                    receipt[n].amount);
      } else {
        assert Swept(receipt[..n], forwarder, signer) + [] == Swept(receipt[..n], forwarder, signer);
      }
    }
  }

  lemma LastSwept(receipt: seq<ChainLog>, forwarder: Address, signer: Address)
    requires receipt != []
    ensures var n := |receipt| - 1;
            Swept(receipt, forwarder, signer)
            == Swept(receipt[..n], forwarder, signer)
               + if OwnSwept(receipt[n], forwarder, signer) then [receipt[n].amount] else []
  {
  }

  lemma SweptLoggedNext(receipt: seq<ChainLog>, forwarder: Address, signer: Address)
    requires receipt != []
    ensures var n, before := |receipt| - 1, SweptLogged(receipt[..|receipt| - 1], forwarder, signer);
            && Before(before, n)
            && SweptLogged(receipt, forwarder, signer)
               == if OwnSwept(receipt[n], forwarder, signer) then before[n := receipt[n].amount] else before
  {
    var n := |receipt| - 1;
    assert forall i :: 0 <= i < n ==> receipt[..n][i] == receipt[i];
  }

  /** A log by which the pool itself tells of ETH it paid out. */
  ghost predicate OwnOutflow(l: ChainLog, pool: Address) {
    l.PoolLog? && l.emitter == pool && (l.log.Claimed? || l.log.Refunded? || l.log.ValidatorTopUpSubmitted?)
  }

  /** The name of that event and its amount, which is 31 ETH for the top-up. */
  ghost function OutflowOf(l: Log): Outflow
    requires l.Claimed? || l.Refunded? || l.ValidatorTopUpSubmitted?
  {
    if l.Claimed? then Outflow("Claimed", l.amount)
    else if l.Refunded? then Outflow("Refunded", l.amount)
    else Outflow("ValidatorTopUpSubmitted", 31_000_000_000_000_000_000)
  }

  /** The outflows decoded are those of the pool's own claims, refunds and top-up, in order, and of nobody else's. */
  ghost function OutflowsLogged(logs: seq<ChainLog>, pool: Address): map<int, Outflow> {
    map i | 0 <= i < |logs| && OwnOutflow(logs[i], pool) :: OutflowOf(logs[i].log)
  }

  lemma {:induction false} OutflowsExactly(logs: seq<ChainLog>, pool: Address)
    ensures InOrder(Outflows(logs, pool), OutflowsLogged(logs, pool))
  {
    if logs == [] {
      NothingInOrder(OutflowsLogged(logs, pool));
    } else {
      var n := |logs| - 1;
      OutflowsExactly(logs[..n], pool);
      LastOutflows(logs, pool);
      OutflowsLoggedNext(logs, pool);
      hide Outflows, OutflowsLogged, InOrder, Before;
      if OwnOutflow(logs[n], pool) {
        InOrderNext(Outflows(logs[..n], pool), OutflowsLogged(logs[..n], pool), n,
                    OutflowOf(logs[n].log));
      } else {
        assert Outflows(logs[..n], pool) + [] == Outflows(logs[..n], pool);
      }
    }
  }

  lemma LastOutflows(logs: seq<ChainLog>, pool: Address)
    requires logs != []
    ensures var n := |logs| - 1;
            Outflows(logs, pool)
            == Outflows(logs[..n], pool)
               + if OwnOutflow(logs[n], pool) then [OutflowOf(logs[n].log)] else []
  {
  }

  lemma OutflowsLoggedNext(logs: seq<ChainLog>, pool: Address)
    requires logs != []
    ensures var n, before := |logs| - 1, OutflowsLogged(logs[..|logs| - 1], pool);
            && Before(before, n)
            && OutflowsLogged(logs, pool)
               == if OwnOutflow(logs[n], pool) then before[n := OutflowOf(logs[n].log)] else before
  {
    var n := |logs| - 1;
    assert forall i :: 0 <= i < n ==> logs[..n][i] == logs[i];
  }

  /** The block-pinned balances, and every outflow the pool logged in the sweep's block. */
  datatype SweepBalances = SweepBalances(forwarderBefore: nat, poolBefore: nat, poolAfter: nat, outflows: seq<Outflow>)

  datatype SweepVerdict = Confirmed | MoreArrived | NotOneSwept | PartForwarded | Shortfall

  predicate Accepts(v: SweepVerdict) {
    v.Confirmed? || v.MoreArrived?
  }

  function PoolCredited(b: SweepBalances): int {
    b.poolAfter - b.poolBefore + TotalOutflow(b.outflows)
  }

  predicate SweepCredited(receipt: seq<ChainLog>, forwarder: Address, signer: Address, b: SweepBalances) {
    var swept := Swept(receipt, forwarder, signer);
    |swept| == 1 && swept[0] >= b.forwarderBefore && PoolCredited(b) >= b.forwarderBefore
  }

  /** `assertSweepWasCredited`: the last three verdicts are fatal. */
  method CheckSweepWasCredited(receipt: seq<ChainLog>, forwarder: Address, signer: Address, b: SweepBalances)
    returns (v: SweepVerdict)
    ensures Accepts(v) <==> SweepCredited(receipt, forwarder, signer, b)
    ensures v.NotOneSwept? <==> |Swept(receipt, forwarder, signer)| != 1
    ensures v.PartForwarded?
            <==> |Swept(receipt, forwarder, signer)| == 1 && Swept(receipt, forwarder, signer)[0] < b.forwarderBefore
    ensures v.Shortfall? ==> PoolCredited(b) < b.forwarderBefore
    ensures v.Confirmed? <==> SweepCredited(receipt, forwarder, signer, b) && PoolCredited(b) == b.forwarderBefore
  {
    var swept := SweptAmounts(receipt, forwarder, signer);
    if |swept| != 1 { return NotOneSwept; }
    if swept[0] < b.forwarderBefore { return PartForwarded; }
    var credited := b.poolAfter - b.poolBefore + TotalOutflow(b.outflows);
    if credited < b.forwarderBefore { return Shortfall; }
    if credited > b.forwarderBefore { return MoreArrived; }
    return Confirmed;
  }

  // ---------------------------------------------------------------- outflows are what the ledger paid

  lemma {:induction false} OutflowsConcat(first: seq<ChainLog>, second: seq<ChainLog>, pool: Address)
    ensures Outflows(first + second, pool) == Outflows(first, pool) + Outflows(second, pool)
    decreases |second|
  {
    hide OutflowIn;
    if second == [] {
      assert first + second == first;
    } else {
      assert (first + second)[..|first + second| - 1] == first + second[..|second| - 1];
      OutflowsConcat(first, second[..|second| - 1], pool);
    }
  }

  lemma {:induction false} TotalConcat(first: seq<Outflow>, second: seq<Outflow>)
    ensures TotalOutflow(first + second) == TotalOutflow(first) + TotalOutflow(second)
    decreases |second|
  {
    if second == [] {
      assert first + second == first;
    } else {
      assert (first + second)[..|first + second| - 1] == first + second[..|second| - 1];
      TotalConcat(first, second[..|second| - 1]);
    }
  }

  /** Refunds, claims and the top-up: everything that leaves the pool and stays away. */
  function LoggedOut(logs: seq<Log>): nat {
    Logged(logs, RefundedKind, None) + Logged(logs, ClaimedKind, None) + Logged(logs, TopUpKind, None)
  }

  lemma {:induction false} EmittedOutflows(pool: Address, logs: seq<Log>)
    ensures TotalOutflow(Outflows(Emitted(pool, logs), pool)) == LoggedOut(logs)
  {
    if logs != [] {
      EmittedOutflows(pool, logs[..|logs| - 1]);
      LastEmitted(pool, logs);
      OneOutflow(logs[|logs| - 1]);
      hide Emitted, Outflows, TotalOutflow, OutflowIn, AmountIn;
    }
  }

  lemma LastEmitted(pool: Address, logs: seq<Log>)
    requires logs != []
    ensures var rest, l := logs[..|logs| - 1], logs[|logs| - 1];
            TotalOutflow(Outflows(Emitted(pool, logs), pool))
            == TotalOutflow(Outflows(Emitted(pool, rest), pool)) + TotalOutflow(OutflowIn(l))
  {
    hide OutflowIn, TotalOutflow;
    var rest, l := logs[..|logs| - 1], logs[|logs| - 1];
    assert Emitted(pool, logs)[..|logs| - 1] == Emitted(pool, rest);
    TotalConcat(Outflows(Emitted(pool, rest), pool), OutflowIn(l));
  }

  lemma OneOutflow(l: Log)
    ensures TotalOutflow(OutflowIn(l))
            == AmountIn(l, RefundedKind, None) + AmountIn(l, ClaimedKind, None) + AmountIn(l, TopUpKind, None)
  {
    if OutflowIn(l) != [] {
      assert OutflowIn(l)[..0] == [];
    }
  }

  /** All ETH a run brings into the pool and leaves there. */
  function Inflow(c: Config, p: Pool, txs: seq<Tx>): nat {
    var logs := Trail(c, p, txs);
    Logged(logs, FundedKind, None) + Logged(logs, ViaCallKind, None) + Forced(txs)
  }

  /** Balance delta plus logged outflows is exactly the ETH that came in, whatever else the block did. */
  lemma CreditedIsInflow(c: Config, p: Pool, txs: seq<Tx>)
    requires Inv(c, p)
    ensures After(c, p, txs).balance + LoggedOut(Trail(c, p, txs)) == p.balance + Inflow(c, p, txs)
  {
    hide Inv, Logged, Trail, After, Forced;
    RunMoves(c, p, txs);
  }

  /**
   No missed loss, for any forwarder code at all: if the check accepts, the receipt holds exactly one
   matching `Swept`, for at least what the forwarder held, and that much ETH did enter the pool.
   */
  lemma AcceptanceMeansCredited(c: Config, p: Pool, txs: seq<Tx>, receipt: seq<ChainLog>, forwarder: Address,
                                signer: Address, forwarderBefore: nat)
    requires Inv(c, p)
    requires SweepCredited(receipt, forwarder, signer,
                           SweepBalances(forwarderBefore, p.balance, After(c, p, txs).balance,
                                         Outflows(Emitted(c.pool, Trail(c, p, txs)), c.pool)))
    ensures |Swept(receipt, forwarder, signer)| == 1 && Swept(receipt, forwarder, signer)[0] >= forwarderBefore
    ensures Inflow(c, p, txs) >= forwarderBefore
  {
    hide Inv, Logged, Trail, After, Forced, Swept, Outflows;
    EmittedOutflows(c.pool, Trail(c, p, txs));
    CreditedIsInflow(c, p, txs);
  }

  // ---------------------------------------------------------------- blocks with the honest forwarder

  datatype World = World(pool: Pool, forwarder: nat)

  /** One thing a block can contain; `Foreign` is any other contract's doing, whatever its logs look like. */
  datatype Item =
    | PoolTx(tx: Tx)
    | PayForwarder(value: nat)
    | Sweep(caller: Address, now: nat)
    | Foreign(logs: seq<ChainLog>)

  /** Nobody else can log in the pool's name. */
  function ByOthers(logs: seq<ChainLog>, pool: Address): seq<ChainLog> {
    if logs == [] then []
    else
      var l := logs[|logs| - 1];
      ByOthers(logs[..|logs| - 1], pool) + if l.emitter == pool then [] else [l]
  }

  lemma {:induction false} OthersLogNoOutflow(logs: seq<ChainLog>, pool: Address)
    ensures Outflows(ByOthers(logs, pool), pool) == []
  {
    if logs != [] {
      var rest, l := ByOthers(logs[..|logs| - 1], pool), logs[|logs| - 1];
      OthersLogNoOutflow(logs[..|logs| - 1], pool);
      assert rest + [] == rest;
      assert (rest + [l])[..|rest + [l]| - 1] == rest;
    }
  }

  /** What the pool's payouts send to the forwarder, if it was named as a recipient. */
  function PaidTo(logs: seq<Log>, forwarder: Address): nat {
    if logs == [] then 0
    else
      var l := logs[|logs| - 1];
      PaidTo(logs[..|logs| - 1], forwarder)
      + if (l.Claimed? || l.Refunded?) && l.recipient == forwarder then l.amount else 0
  }

  /** The transfer a sweep makes: the forwarder's whole balance, from the forwarder. */
  function SweepTransfer(forwarder: Address, w: World, item: Item): Tx
    requires item.Sweep?
  {
    Tx(item.now, forwarder, Transfer(w.forwarder))
  }

  predicate SweepSucceeds(c: Config, forwarder: Address, w: World, item: Item) {
    item.Sweep? && w.forwarder > 0 && Step(c, w.pool, SweepTransfer(forwarder, w, item)).Done?
  }

  function ItemTxs(c: Config, forwarder: Address, w: World, item: Item): seq<Tx> {
    match item
    case PoolTx(tx) => [tx]
    case PayForwarder(_) => []
    case Foreign(_) => []
    case Sweep(_, _) => if SweepSucceeds(c, forwarder, w, item) then [SweepTransfer(forwarder, w, item)] else []
  }

  function ItemLogs(c: Config, forwarder: Address, w: World, item: Item): seq<ChainLog> {
    (if SweepSucceeds(c, forwarder, w, item) then [SweptLog(forwarder, item.caller, w.forwarder)]
     else if item.Foreign? then ByOthers(item.logs, c.pool) else [])
    + Emitted(c.pool, Trail(c, w.pool, ItemTxs(c, forwarder, w, item)))
  }

  function AfterItem(c: Config, forwarder: Address, w: World, item: Item): World {
    var txs := ItemTxs(c, forwarder, w, item);
    var kept := match item
                case PoolTx(_) => w.forwarder + PaidTo(Trail(c, w.pool, txs), forwarder)
                case PayForwarder(v) => w.forwarder + v
                case Foreign(_) => w.forwarder
                case Sweep(_, _) => if SweepSucceeds(c, forwarder, w, item) then 0 else w.forwarder;
    World(After(c, w.pool, txs), kept)
  }

  function AfterBlock(c: Config, forwarder: Address, w: World, items: seq<Item>): World
    decreases |items|
  {
    if items == [] then w else AfterBlock(c, forwarder, AfterItem(c, forwarder, w, items[0]), items[1..])
  }

  function BlockLogs(c: Config, forwarder: Address, w: World, items: seq<Item>): seq<ChainLog>
    decreases |items|
  {
    if items == [] then []
    else ItemLogs(c, forwarder, w, items[0]) + BlockLogs(c, forwarder, AfterItem(c, forwarder, w, items[0]), items[1..])
  }

  function BlockTxs(c: Config, forwarder: Address, w: World, items: seq<Item>): seq<Tx>
    decreases |items|
  {
    if items == [] then []
    else ItemTxs(c, forwarder, w, items[0]) + BlockTxs(c, forwarder, AfterItem(c, forwarder, w, items[0]), items[1..])
  }

  /** To the pool a block is a run; its outflows, decoded from the block's logs, are that run's. */
  lemma {:induction false} BlockIsPoolRun(c: Config, forwarder: Address, w: World, items: seq<Item>)
    requires forwarder != c.pool
    ensures AfterBlock(c, forwarder, w, items).pool == After(c, w.pool, BlockTxs(c, forwarder, w, items))
    ensures TotalOutflow(Outflows(BlockLogs(c, forwarder, w, items), c.pool))
            == LoggedOut(Trail(c, w.pool, BlockTxs(c, forwarder, w, items)))
    decreases |items|
  {
    hide After, Trail, ItemTxs, Logged, SweepSucceeds, Outflows, TotalOutflow;
    if items == [] {
      EmptyBlock(c, w.pool);
    } else {
      var v := AfterItem(c, forwarder, w, items[0]);
      BlockIsPoolRun(c, forwarder, v, items[1..]);
      var first, rest := ItemTxs(c, forwarder, w, items[0]), BlockTxs(c, forwarder, v, items[1..]);
      AfterConcat(c, w.pool, first, rest);
      ItemOutflows(c, forwarder, w, items[0]);
      OutflowsConcat(ItemLogs(c, forwarder, w, items[0]), BlockLogs(c, forwarder, v, items[1..]), c.pool);
      TotalConcat(Outflows(ItemLogs(c, forwarder, w, items[0]), c.pool),
                  Outflows(BlockLogs(c, forwarder, v, items[1..]), c.pool));
      LoggedOutConcat(Trail(c, w.pool, first), Trail(c, v.pool, rest));
    }
  }

  lemma EmptyBlock(c: Config, p: Pool)
    ensures After(c, p, []) == p && LoggedOut(Trail(c, p, [])) == 0
    ensures TotalOutflow(Outflows([], c.pool)) == 0
  {
  }

  lemma LoggedOutConcat(first: seq<Log>, second: seq<Log>)
    ensures LoggedOut(first + second) == LoggedOut(first) + LoggedOut(second)
  {
    LoggedConcat(first, second, RefundedKind, None);
    LoggedConcat(first, second, ClaimedKind, None);
    LoggedConcat(first, second, TopUpKind, None);
  }

  lemma ItemOutflows(c: Config, forwarder: Address, w: World, item: Item)
    requires forwarder != c.pool
    ensures TotalOutflow(Outflows(ItemLogs(c, forwarder, w, item), c.pool))
            == LoggedOut(Trail(c, w.pool, ItemTxs(c, forwarder, w, item)))
  {
    hide ItemTxs, Trail, Logged, Step;
    var pools := Emitted(c.pool, Trail(c, w.pool, ItemTxs(c, forwarder, w, item)));
    EmittedOutflows(c.pool, Trail(c, w.pool, ItemTxs(c, forwarder, w, item)));
    if SweepSucceeds(c, forwarder, w, item) {
      var head := [SweptLog(forwarder, item.caller, w.forwarder)];
      OutflowsConcat(head, pools, c.pool);
      assert head[..0] == [];
      assert [] + Outflows(pools, c.pool) == Outflows(pools, c.pool);
    } else if item.Foreign? {
      OthersLogNoOutflow(item.logs, c.pool);
      OutflowsConcat(ByOthers(item.logs, c.pool), pools, c.pool);
      assert [] + Outflows(pools, c.pool) == Outflows(pools, c.pool);
    } else {
      assert [] + pools == pools;
    }
  }

  lemma {:induction false} BlockConcat(c: Config, forwarder: Address, w: World, first: seq<Item>, second: seq<Item>)
    ensures AfterBlock(c, forwarder, w, first + second)
            == AfterBlock(c, forwarder, AfterBlock(c, forwarder, w, first), second)
    ensures BlockTxs(c, forwarder, w, first + second)
            == BlockTxs(c, forwarder, w, first) + BlockTxs(c, forwarder, AfterBlock(c, forwarder, w, first), second)
    decreases |first|
  {
    hide AfterItem, ItemTxs;
    if first == [] {
      assert first + second == second;
    } else {
      assert (first + second)[1..] == first[1..] + second;
      BlockConcat(c, forwarder, AfterItem(c, forwarder, w, first[0]), first[1..], second);
    }
  }

  // ---------------------------------------------------------------- the honest sweep

  /** What the command hands to the check after `signer`'s sweep landed between `before` and `after`. */
  function BalancesOf(c: Config, forwarder: Address, w: World, block: seq<Item>): SweepBalances {
    SweepBalances(w.forwarder, w.pool.balance, AfterBlock(c, forwarder, w, block).pool.balance,
                  Outflows(BlockLogs(c, forwarder, w, block), c.pool))
  }

  lemma {:induction false} PoolLogsCarryNoSwept(pool: Address, logs: seq<Log>, forwarder: Address, signer: Address)
    ensures Swept(Emitted(pool, logs), forwarder, signer) == []
  {
    if logs != [] {
      assert Emitted(pool, logs)[..|logs| - 1] == Emitted(pool, logs[..|logs| - 1]);
      PoolLogsCarryNoSwept(pool, logs[..|logs| - 1], forwarder, signer);
    }
  }

  lemma {:induction false} SweptConcat(first: seq<ChainLog>, second: seq<ChainLog>, forwarder: Address, signer: Address)
    ensures Swept(first + second, forwarder, signer)
            == Swept(first, forwarder, signer) + Swept(second, forwarder, signer)
    decreases |second|
  {
    if second == [] {
      assert first + second == first;
    } else {
      assert (first + second)[..|first + second| - 1] == first + second[..|second| - 1];
      SweptConcat(first, second[..|second| - 1], forwarder, signer);
    }
  }

  lemma SweepReceipt(c: Config, forwarder: Address, w: World, item: Item)
    requires SweepSucceeds(c, forwarder, w, item)
    ensures Swept(ItemLogs(c, forwarder, w, item), forwarder, item.caller) == [w.forwarder]
  {
    hide Trail, Step;
    var head := [SweptLog(forwarder, item.caller, w.forwarder)];
    var logs := Trail(c, w.pool, ItemTxs(c, forwarder, w, item));
    SweptConcat(head, Emitted(c.pool, logs), forwarder, item.caller);
    PoolLogsCarryNoSwept(c.pool, logs, forwarder, item.caller);
    assert head[..0] == [];
  }

  lemma InflowConcat(c: Config, p: Pool, first: seq<Tx>, second: seq<Tx>)
    ensures Inflow(c, p, first + second) == Inflow(c, p, first) + Inflow(c, After(c, p, first), second)
  {
    hide Logged, Forced;
    AfterConcat(c, p, first, second);
    ForcedConcat(first, second);
    LoggedConcat(Trail(c, p, first), Trail(c, After(c, p, first), second), FundedKind, None);
    LoggedConcat(Trail(c, p, first), Trail(c, After(c, p, first), second), ViaCallKind, None);
  }

  /** A transfer the pool accepts is inflow, whichever way the pool books it. */
  lemma TransferIsInflow(c: Config, p: Pool, tx: Tx)
    requires tx.action.Transfer? && Step(c, p, tx).Done?
    ensures Inflow(c, p, [tx]) == tx.action.value
  {
    hide Remaining, Logged;
    AfterOne(c, p, tx);
    ShortLogs(LogsOf(c, p, tx));
    assert Forced([tx]) == 0 by { assert [tx][..0] == []; }
  }

  /**
   The exact verdict on an honest sweep: whatever shares its block, the check accepts it exactly when
   the forwarder, at the moment of the sweep, still held at least its prior-block balance.
   */
  lemma HonestSweepAcceptedExactly(c: Config, forwarder: Address, w: World, before: seq<Item>, sweep: Item,
                                   after: seq<Item>)
    requires Inv(c, w.pool) && forwarder != c.pool
    requires SweepSucceeds(c, forwarder, AfterBlock(c, forwarder, w, before), sweep)
    ensures var v := AfterBlock(c, forwarder, w, before);
            SweepCredited(ItemLogs(c, forwarder, v, sweep), forwarder, sweep.caller,
                          BalancesOf(c, forwarder, w, before + ([sweep] + after)))
            <==> v.forwarder >= w.forwarder
  {
    hide Inv, AfterItem, ItemLogs, Logged, Trail, After, BlockLogs, AfterBlock, BlockTxs, Outflows, Swept;
    hide SweepSucceeds, Inflow;
    var v := AfterBlock(c, forwarder, w, before);
    var block := before + ([sweep] + after);
    var txs := BlockTxs(c, forwarder, w, block);
    SweepReceipt(c, forwarder, v, sweep);
    BlockIsPoolRun(c, forwarder, w, block);
    CreditedIsInflow(c, w.pool, txs);
    SweepInflow(c, forwarder, w, before, sweep, after);
  }

  /** The block's inflow includes what the sweep forwarded. */
  lemma SweepInflow(c: Config, forwarder: Address, w: World, before: seq<Item>, sweep: Item, after: seq<Item>)
    requires forwarder != c.pool
    requires SweepSucceeds(c, forwarder, AfterBlock(c, forwarder, w, before), sweep)
    ensures Inflow(c, w.pool, BlockTxs(c, forwarder, w, before + ([sweep] + after)))
            >= AfterBlock(c, forwarder, w, before).forwarder
  {
    hide AfterItem, Logged, Trail, After, Inflow, Outflows, ItemLogs, BlockLogs, Step;
    var v := AfterBlock(c, forwarder, w, before);
    var first := BlockTxs(c, forwarder, w, before);
    var second := BlockTxs(c, forwarder, v, [sweep] + after);
    var tx := SweepTransfer(forwarder, v, sweep);
    BlockConcat(c, forwarder, w, before, [sweep] + after);
    BlockIsPoolRun(c, forwarder, w, before);
    assert ([sweep] + after)[0] == sweep;
    var rest := BlockTxs(c, forwarder, AfterItem(c, forwarder, v, sweep), ([sweep] + after)[1..]);
    assert second == [tx] + rest;
    InflowConcat(c, w.pool, first, second);
    InflowConcat(c, v.pool, [tx], rest);
    TransferIsInflow(c, v.pool, tx);
  }

  /** No other sweep of this forwarder succeeds among these items. */
  ghost predicate NoSweepAmong(c: Config, forwarder: Address, w: World, items: seq<Item>) {
    forall i :: 0 <= i < |items| ==> !SweepSucceeds(c, forwarder, AfterBlock(c, forwarder, w, items[..i]), items[i])
  }

  lemma {:induction false} ForwarderOnlyFills(c: Config, forwarder: Address, w: World, items: seq<Item>)
    requires NoSweepAmong(c, forwarder, w, items)
    ensures AfterBlock(c, forwarder, w, items).forwarder >= w.forwarder
    decreases |items|
  {
    hide SweepSucceeds, Trail, After;
    if items != [] {
      assert items[..0] == [];
      assert !SweepSucceeds(c, forwarder, w, items[0]);
      var v := AfterItem(c, forwarder, w, items[0]);
      forall i | 0 <= i < |items[1..]|
        ensures !SweepSucceeds(c, forwarder, AfterBlock(c, forwarder, v, items[1..][..i]), items[1..][i])
      {
        assert items[..i + 1][0] == items[0] && items[..i + 1][1..] == items[1..][..i];
        assert !SweepSucceeds(c, forwarder, AfterBlock(c, forwarder, w, items[..i + 1]), items[i + 1]);
      }
      ForwarderOnlyFills(c, forwarder, v, items[1..]);
    }
  }

  /** No false alarm: an honest sweep with no earlier sweep in its block is accepted, whatever else the block does. */
  lemma FirstSweepInABlockIsAccepted(c: Config, forwarder: Address, w: World, before: seq<Item>, sweep: Item,
                                     after: seq<Item>)
    requires Inv(c, w.pool) && forwarder != c.pool
    requires NoSweepAmong(c, forwarder, w, before)
    requires SweepSucceeds(c, forwarder, AfterBlock(c, forwarder, w, before), sweep)
    ensures SweepCredited(ItemLogs(c, forwarder, AfterBlock(c, forwarder, w, before), sweep), forwarder, sweep.caller,
                          BalancesOf(c, forwarder, w, before + ([sweep] + after)))
  {
    hide Inv, SweepSucceeds, AfterBlock, BalancesOf, ItemLogs, SweepCredited;
    ForwarderOnlyFills(c, forwarder, w, before);
    HonestSweepAcceptedExactly(c, forwarder, w, before, sweep, after);
  }

  /**
   The condition is needed: when somebody else's sweep comes first and a smaller payment follows it,
   every wei still reaches the pool and yet the signer's honest sweep is reported as partial.
   */
  lemma EarlierSweepRaisesFalseAlarm(c: Config, forwarder: Address, w: World, other: Address, signer: Address, v: nat,
                                     now: nat)
    requires Inv(c, w.pool) && forwarder != c.pool && w.pool.stage.ToppedUp? && 0 < v < w.forwarder
    ensures var before := [Sweep(other, now), PayForwarder(v)];
            var sweep := Sweep(signer, now);
            && SweepSucceeds(c, forwarder, AfterBlock(c, forwarder, w, before), sweep)
            && AfterBlock(c, forwarder, w, before + ([sweep] + [])).forwarder == 0
            && AfterBlock(c, forwarder, w, before + ([sweep] + [])).pool.balance == w.pool.balance + w.forwarder + v
            && !SweepCredited(ItemLogs(c, forwarder, AfterBlock(c, forwarder, w, before), sweep), forwarder, signer,
                              BalancesOf(c, forwarder, w, before + ([sweep] + [])))
  {
    hide Inv, ItemLogs, BlockLogs, Outflows, Swept, FundEffect;
    var first, pay, sweep := Sweep(other, now), PayForwarder(v), Sweep(signer, now);
    var before := [first, pay];
    var w1 := AfterItem(c, forwarder, w, first);
    AfterOne(c, w.pool, SweepTransfer(forwarder, w, first));
    assert w1 == World(w.pool.(balance := w.pool.balance + w.forwarder), 0);
    var w2 := AfterItem(c, forwarder, w1, pay);
    assert w2 == World(w1.pool, v);
    assert before[1..] == [pay] && [pay][1..] == [];
    assert AfterBlock(c, forwarder, w1, [pay]) == w2;
    assert AfterBlock(c, forwarder, w, before) == w2;
    AfterOne(c, w2.pool, SweepTransfer(forwarder, w2, sweep));
    BlockConcat(c, forwarder, w, before, [sweep] + []);
    assert [sweep] + [] == [sweep] && [sweep][1..] == [];
    assert AfterBlock(c, forwarder, w2, [sweep]) == AfterItem(c, forwarder, w2, sweep);
    HonestSweepAcceptedExactly(c, forwarder, w, before, sweep, []);
  }

  lemma NothingBefore(c: Config, forwarder: Address, w: World)
    ensures AfterBlock(c, forwarder, w, []) == w
  {
  }

  /** Alone in its block, a sweep brings the pool exactly what the forwarder held. */
  lemma QuietBlockIsExact(c: Config, forwarder: Address, w: World, sweep: Item)
    requires Inv(c, w.pool) && forwarder != c.pool && SweepSucceeds(c, forwarder, w, sweep)
    ensures PoolCredited(BalancesOf(c, forwarder, w, [sweep])) == w.forwarder
  {
    hide Inv, After, Trail, Logged, ItemLogs, BlockLogs, Inflow, Step, Outflows;
    var tx := SweepTransfer(forwarder, w, sweep);
    var txs := BlockTxs(c, forwarder, w, [sweep]);
    assert [sweep][1..] == [] && BlockTxs(c, forwarder, AfterItem(c, forwarder, w, sweep), []) == [];
    assert txs == [tx];
    BlockIsPoolRun(c, forwarder, w, [sweep]);
    CreditedIsInflow(c, w.pool, txs);
    TransferIsInflow(c, w.pool, tx);
  }

  /**
   The command around one sweep by `signer`, included between `before` and `after`: the balances
   pinned to the block and the one before it, the outflows decoded from the block's logs, the check.
   None if the sweep reverts. Whatever else the block holds, the check accepts exactly when the
   forwarder still held its prior-block balance at the moment of the sweep.
   */
  method RunSweep(c: Config, forwarder: Address, w: World, signer: Address, now: nat, before: seq<Item>,
                  after: seq<Item>)
    returns (v: Option<SweepVerdict>)
    requires Inv(c, w.pool) && forwarder != c.pool
    ensures v.Some? <==> SweepSucceeds(c, forwarder, AfterBlock(c, forwarder, w, before), Sweep(signer, now))
    ensures v.Some? ==> (Accepts(v.value) <==> AfterBlock(c, forwarder, w, before).forwarder >= w.forwarder)
    ensures v.Some? && Accepts(v.value) && before == after == [] ==> v.value.Confirmed?
  {
    hide Inv, AfterBlock, BlockLogs, ItemLogs, SweepSucceeds, SweepCredited, Outflows, Swept;
    var sweep := Sweep(signer, now);
    var atSweep := AfterBlock(c, forwarder, w, before);
    if !SweepSucceeds(c, forwarder, atSweep, sweep) {
      return None;
    }
    var block := before + ([sweep] + after);
    var receipt := ItemLogs(c, forwarder, atSweep, sweep);
    var outflows := DecodePoolOutflows(BlockLogs(c, forwarder, w, block), c.pool);
    var balances := SweepBalances(w.forwarder, w.pool.balance, AfterBlock(c, forwarder, w, block).pool.balance,
                                  outflows);
    HonestSweepAcceptedExactly(c, forwarder, w, before, sweep, after);
    var verdict := CheckSweepWasCredited(receipt, forwarder, signer, balances);
    if before == after == [] {
      NothingBefore(c, forwarder, w);
      assert block == [sweep];
      QuietBlockIsExact(c, forwarder, w, sweep);
    }
    return Some(verdict);
  }
}
