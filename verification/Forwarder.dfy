/**
 The fee-recipient forwarder, facing a pool that may do anything when it is paid: accept or refuse,
 call `sweep` again to any depth, send ETH back.
 */
module Forwarder {
  import opened Amounts

  /**
   What the receiving contract does while it is being paid: a nested sweep, with its own receipt of
   ETH, or a payment.
   */
  datatype Op = Resweep(caller: Address, accepts: bool, inner: seq<Op>) | SendBack(value: nat)

  datatype Error = EmptyBalance | SweepFailed

  datatype Swept = Swept(caller: Address, amount: nat)

  /** The forwarder's balance, the ETH it has delivered, the ETH sent to it, and its logs. */
  datatype State = State(balance: nat, delivered: nat, received: nat, logs: seq<Swept>)

  /** `sweep`: a failed call, nested or not, leaves no trace. */
  function AfterSweep(s: State, caller: Address, accepts: bool, ops: seq<Op>): (State, bool)
    decreases ops, 1
  {
    if s.balance == 0 then (s, false)
    else
      var paid := s.(balance := 0, delivered := s.delivered + s.balance, logs := s.logs + [Swept(caller, s.balance)]);
      var t := AfterOps(paid, ops);
      if accepts then (t, true) else (s, false)
  }

  function AfterOps(s: State, ops: seq<Op>): State
    decreases ops, 0
  {
    if ops == [] then s
    else
      var t := match ops[0]
               case Resweep(caller, accepts, inner) => AfterSweep(s, caller, accepts, inner).0
               case SendBack(v) => s.(balance := s.balance + v, received := s.received + v);
      AfterOps(t, ops[1..])
  }

  function SweptTotal(logs: seq<Swept>): nat {
    if logs == [] then 0 else SweptTotal(logs[..|logs| - 1]) + logs[|logs| - 1].amount
  }

  lemma SweptTotalAppend(logs: seq<Swept>, l: Swept)
    ensures SweptTotal(logs + [l]) == SweptTotal(logs) + l.amount
  {
    assert (logs + [l])[..|logs|] == logs;
  }

  /** ETH delivered is what the logs say, and what is left is what came in beyond it. */
  ghost predicate Balanced(s: State, t: State) {
    && t.balance + t.delivered + s.received == s.balance + s.delivered + t.received
    && SweptTotal(t.logs) + s.delivered == SweptTotal(s.logs) + t.delivered
    && t.received >= s.received && t.delivered >= s.delivered
  }

  /** No reaction makes the forwarder pay out more than it held and was sent, or log anything else. */
  lemma {:induction false} SweepIsBalanced(s: State, caller: Address, accepts: bool, ops: seq<Op>)
    ensures Balanced(s, AfterSweep(s, caller, accepts, ops).0)
    decreases ops, 1
  {
    if s.balance > 0 {
      var paid := s.(balance := 0, delivered := s.delivered + s.balance, logs := s.logs + [Swept(caller, s.balance)]);
      SweptTotalAppend(s.logs, Swept(caller, s.balance));
      OpsAreBalanced(paid, ops);
    }
  }

  lemma {:induction false} OpsAreBalanced(s: State, ops: seq<Op>)
    ensures Balanced(s, AfterOps(s, ops))
    decreases ops, 0
  {
    if ops != [] {
      match ops[0] {
        case Resweep(caller, accepts, inner) =>
          SweepIsBalanced(s, caller, accepts, inner);
          OpsAreBalanced(AfterSweep(s, caller, accepts, inner).0, ops[1..]);
        case SendBack(v) =>
          OpsAreBalanced(s.(balance := s.balance + v, received := s.received + v), ops[1..]);
      }
    }
  }

  /** At no depth does this reaction send ETH back. */
  predicate SendsNothing(ops: seq<Op>)
    decreases ops, 0
  {
    ops == [] || ((ops[0].Resweep? && SendsNothing(ops[0].inner)) && SendsNothing(ops[1..]))
  }

  lemma {:induction false} EmptyForwarderStaysEmpty(s: State, ops: seq<Op>)
    requires s.balance == 0 && SendsNothing(ops)
    ensures AfterOps(s, ops) == s
    decreases ops, 0
  {
    if ops != [] {
      EmptyForwarderStaysEmpty(s, ops[1..]);
    }
  }

  /**
   A sweep succeeds exactly when there is ETH and the pool accepts it. A refused or empty sweep changes
   nothing, so it can be retried; against a receiver that only re-enters, the balance goes out once.
   */
  lemma SweepOutcome(s: State, caller: Address, accepts: bool, ops: seq<Op>)
    ensures AfterSweep(s, caller, accepts, ops).1 <==> s.balance > 0 && accepts
    ensures !AfterSweep(s, caller, accepts, ops).1 ==> AfterSweep(s, caller, accepts, ops).0 == s
    ensures AfterSweep(s, caller, accepts, ops).1 && SendsNothing(ops) ==>
              AfterSweep(s, caller, accepts, ops).0
              == s.(balance := 0, delivered := s.delivered + s.balance, logs := s.logs + [Swept(caller, s.balance)])
  {
    if s.balance > 0 && SendsNothing(ops) {
      var paid := s.(balance := 0, delivered := s.delivered + s.balance, logs := s.logs + [Swept(caller, s.balance)]);
      EmptyForwarderStaysEmpty(paid, ops);
    }
  }

  /**
   What the pool does while it is being paid takes effect at once: ETH sent back stays with the
   forwarder, and a sweep from inside finds exactly that ETH and logs it after the first sweep.
   */
  lemma ReactionTakesEffect(s: State, caller: Address, value: nat, other: Address, accepted: bool)
    requires s.balance > 0
    ensures var ops := [SendBack(value), Resweep(other, accepted, [])];
            var (t, ok) := AfterSweep(s, caller, true, ops);
            && ok && t.received == s.received + value
            && if value > 0 && accepted
               then t.balance == 0 && t.delivered == s.delivered + s.balance + value
                    && t.logs == s.logs + [Swept(caller, s.balance), Swept(other, value)]
               else t.balance == value && t.delivered == s.delivered + s.balance
                    && t.logs == s.logs + [Swept(caller, s.balance)]
  {
    var ops := [SendBack(value), Resweep(other, accepted, [])];
    var paid := s.(balance := 0, delivered := s.delivered + s.balance, logs := s.logs + [Swept(caller, s.balance)]);
    var sent := paid.(balance := value, received := s.received + value);
    assert ops[1..] == [ops[1]] && ops[1..][1..] == [];
    assert AfterOps(paid, ops) == AfterOps(sent, ops[1..]);
    assert AfterOps(sent, ops[1..]) == AfterOps(AfterSweep(sent, other, accepted, []).0, []);
    assert s.logs + [Swept(caller, s.balance)] + [Swept(other, value)]
        == s.logs + [Swept(caller, s.balance), Swept(other, value)];
  }

  class FeeRecipientForwarder {
    var balance: nat
    var delivered: nat
    var received: nat
    var events: seq<Swept>

    constructor ()
      ensures Ledger() == State(0, 0, 0, [])
    {
      balance, delivered, received, events := 0, 0, 0, [];
    }

    function Ledger(): State
      reads this
    {
      State(balance, delivered, received, events)
    }

    /** Unconditional: no state but the balance, no event. */
    method Receive(value: nat)
      modifies this
      ensures Ledger() == old(Ledger()).(balance := old(balance) + value, received := old(received) + value)
    {
      balance := balance + value;
      received := received + value;
    }

    method Sweep(caller: Address, accepts: bool, ops: seq<Op>) returns (ok: bool, error: Error)
      modifies this
      ensures (Ledger(), ok) == AfterSweep(old(Ledger()), caller, accepts, ops)
      ensures !ok ==> error == if old(balance) == 0 then EmptyBalance else SweepFailed
      decreases ops, 1
    {
      error := SweepFailed;
      var amount := balance;
      if amount == 0 {
        return false, EmptyBalance;
      }
      var wasDelivered, wasReceived, logged := delivered, received, events;
      events := events + [Swept(caller, amount)];
      balance := 0;
      delivered := delivered + amount;
      React(ops);
      ok := accepts;
      if !ok {
        balance, delivered, received, events := amount, wasDelivered, wasReceived, logged;
      }
    }

    /** The paid contract's calls, one after the other; a nested sweep that fails is caught. */
    method React(ops: seq<Op>)
      modifies this
      ensures Ledger() == AfterOps(old(Ledger()), ops)
      decreases ops, 0
    {
      if ops != [] {
        match ops[0] {
          case Resweep(caller, accepts, inner) =>
            var ok, error := Sweep(caller, accepts, inner);
          case SendBack(v) =>
            Receive(v);
        }
        React(ops[1..]);
      }
    }
  }
}
