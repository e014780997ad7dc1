/**
 What every transaction keeps: each liability is backed by ETH, an open attempt is the agreement that
 was signed, and no participant has drawn more than a pro-rata share of the proceeds.
 */
module PoolInvariant {
  import opened Amounts
  import opened Options
  import opened PoolLedger

  ghost predicate Distinct(s: seq<Address>) {
    forall i, j :: 0 <= i < j < |s| ==> s[i] != s[j]
  }

  function Cap(c: Config, target: map<Address, nat>, a: Address): int {
    At(target, a) - (if a == c.operator && At(target, a) > 0 then PREDEPOSIT else 0)
  }

  /** Nothing is left of any attempt. */
  ghost predicate NoAttempt(p: Pool) {
    p.participants == [] && p.totalActive == 0 && AllZero(p.target) && AllZero(p.active)
  }

  /** The targets sum to 32 ETH, the operator carries the predeposit, and funding is within the caps. */
  ghost predicate Agreement(c: Config, p: Pool) {
    && Distinct(p.participants)
    && c.operator in p.participants
    && (forall a :: a in p.participants <==> At(p.target, a) > 0)
    && At(p.target, c.operator) >= PREDEPOSIT
    && Total(p.target) == VALIDATOR_DEPOSIT
    && (forall a :: At(p.active, a) <= Cap(c, p.target, a))
    && Total(p.active) == p.totalActive
  }

  ghost predicate NoCredit(p: Pool) {
    p.credited == map[] && p.claimed == map[] && p.totalCredited == 0 && p.totalClaimed == 0 && !p.topUpSubmitted
  }

  /** Credits are the targets; claims add up and stay within every participant's share. */
  ghost predicate Credit(p: Pool) {
    && p.topUpSubmitted
    && p.totalActive == TOP_UP
    && (forall a :: At(p.credited, a) == At(p.target, a))
    && |p.credited| == |p.participants|
    && Total(p.credited) == p.totalCredited == VALIDATOR_DEPOSIT
    && Total(p.claimed) == p.totalClaimed
    && Gross(p) >= 0
    && (forall a :: At(p.claimed, a) <= Entitled(Gross(p), At(p.credited, a)))
  }

  ghost predicate Inv(c: Config, p: Pool) {
    && p.totalRefundable == Total(p.refundable)
    && (p.stage.Uninitialized? ==> p == DEPLOYED.(balance := p.balance))
    && (!p.stage.Uninitialized? ==> |p.pubkey| == PUBKEY_LENGTH)
    && (p.stage.Uninitialized? || p.stage.Predeposited? ==> NoAttempt(p))
    && (p.stage.Funding? || p.stage.ToppedUp? ==> Agreement(c, p))
    && (if p.stage.ToppedUp? then Credit(p) else NoCredit(p))
    && (!p.stage.ToppedUp? ==> p.balance >= p.totalRefundable + p.totalActive)
  }

  // ---------------------------------------------------------------- pro-rata shares

  function Shares(credited: map<Address, nat>, gross: nat): map<Address, nat> {
    map a | a in credited :: Entitled(gross, credited[a])
  }

  lemma EntitledBounds(gross: nat, credit: nat)
    ensures Entitled(gross, credit) * VALIDATOR_DEPOSIT <= gross * credit
    ensures gross * credit < (Entitled(gross, credit) + 1) * VALIDATOR_DEPOSIT
  {
    var product: nat := gross * credit;
    assert product / VALIDATOR_DEPOSIT * VALIDATOR_DEPOSIT <= product;
  }

  lemma ProductGrows(x: nat, y: nat, z: nat)
    requires x <= y
    ensures x * z <= y * z
  {
  }

  lemma EntitledGrows(gross: nat, gross': nat, credit: nat)
    requires gross <= gross'
    ensures Entitled(gross, credit) <= Entitled(gross', credit)
  {
    ProductGrows(gross, gross', credit);
    var low: nat, high: nat := gross * credit, gross' * credit;
    assert low / VALIDATOR_DEPOSIT <= high / VALIDATOR_DEPOSIT;
  }

  /** `shares` gives every key its credit's pro-rata part of `gross`, rounded down. */
  ghost predicate RoundedDown(credited: map<Address, nat>, shares: map<Address, nat>, gross: nat) {
    shares.Keys == credited.Keys
    && forall a :: a in credited ==> InShare(gross, credited[a], shares[a])
  }

  predicate InShare(gross: nat, credit: nat, share: nat) {
    share * VALIDATOR_DEPOSIT <= gross * credit < (share + 1) * VALIDATOR_DEPOSIT
  }

  /** So many shares of so many credits in all: at most the pro-rata part, and short by less than one wei each. */
  predicate TotalsInShare(gross: nat, credits: nat, shares: nat, count: nat) {
    && shares * VALIDATOR_DEPOSIT <= gross * credits
    && if count == 0 then credits == shares == 0 else gross * credits < (shares + count) * VALIDATOR_DEPOSIT
  }

  lemma {:induction false} RoundedDownTotal(credited: map<Address, nat>, shares: map<Address, nat>, gross: nat)
    requires RoundedDown(credited, shares, gross)
    ensures TotalsInShare(gross, Total(credited), Total(shares), |credited|)
    decreases credited.Keys
  {
    if credited.Keys == {} {
      TotalOfZeros(credited);
      TotalOfZeros(shares);
    } else {
      hide Total, InShare, TotalsInShare;
      var a :| a in credited.Keys;
      var rest, restShares := credited - {a}, shares - {a};
      TotalWithout(credited, a);
      TotalWithout(shares, a);
      RoundedDownTotal(rest, restShares, gross);
      assert rest.Keys == credited.Keys - {a};
      assert InShare(gross, credited[a], shares[a]);
      SharesStep(gross, credited[a], shares[a], Total(rest), Total(restShares), |rest|);
    }
  }

  lemma SharesStep(gross: nat, credit: nat, share: nat, others: nat, shares: nat, count: nat)
    requires InShare(gross, credit, share) && TotalsInShare(gross, others, shares, count)
    ensures TotalsInShare(gross, credit + others, share + shares, count + 1)
  {
    assert gross * (credit + others) == gross * credit + gross * others;
  }

  /** The shares never exceed the proceeds, and fall short by less than one wei each. */
  lemma SharesOfProceeds(credited: map<Address, nat>, gross: nat)
    ensures Total(Shares(credited, gross)) * VALIDATOR_DEPOSIT <= gross * Total(credited)
    ensures credited != map[] ==>
              gross * Total(credited) < (Total(Shares(credited, gross)) + |credited|) * VALIDATOR_DEPOSIT
  {
    forall a | a in credited ensures InShare(gross, credited[a], Entitled(gross, credited[a])) {
      EntitledBounds(gross, credited[a]);
    }
    RoundedDownTotal(credited, Shares(credited, gross), gross);
    assert |credited| == 0 ==> credited == map[];
  }

  /** Everything still claimable, by all participants together, is in the pool beyond the refunds. */
  lemma ClaimsAreBacked(p: Pool)
    requires Credit(p)
    ensures Total(Shares(p.credited, Gross(p))) <= Gross(p)
    ensures p.totalClaimed <= Total(Shares(p.credited, Gross(p)))
    ensures p.balance >= p.totalRefundable
  {
    hide Total;
    var g := Gross(p);
    SharesOfProceeds(p.credited, g);
    assert Total(Shares(p.credited, g)) * VALIDATOR_DEPOSIT <= g * VALIDATOR_DEPOSIT;
    forall a ensures At(p.claimed, a) <= At(Shares(p.credited, g), a) {
      assert At(p.claimed, a) <= Entitled(g, At(p.credited, a));
    }
    TotalDominated(p.claimed, Shares(p.credited, g));
  }

  lemma ClaimableCompletes(p: Pool, a: Address)
    requires Credit(p) && p.stage.ToppedUp?
    ensures At(p.claimed, a) + Claimable(p, a) == Entitled(Gross(p), At(p.credited, a))
  {
    assert At(p.claimed, a) <= Entitled(Gross(p), At(p.credited, a));
  }

  /** One participant's claim fits in what the shares leave unclaimed. */
  lemma ClaimFits(p: Pool, a: Address)
    requires Credit(p) && p.stage.ToppedUp?
    ensures p.totalClaimed + Claimable(p, a) <= Total(Shares(p.credited, Gross(p)))
    ensures Claimable(p, a) <= p.balance - p.totalRefundable
  {
    hide Total, Claimable, Entitled;
    ClaimableCompletes(p, a);
    EntitledOfNothing(Gross(p));
    var g := Gross(p);
    var shares := Shares(p.credited, g);
    var settled := p.claimed[a := Entitled(g, At(p.credited, a))];
    forall b ensures At(settled, b) <= At(shares, b) {
      assert At(p.claimed, b) <= Entitled(g, At(p.credited, b));
    }
    TotalDominated(settled, shares);
    TotalSet(p.claimed, a, Entitled(g, At(p.credited, a)));
    ClaimsAreBacked(p);
  }

  function Claimables(p: Pool): map<Address, nat> {
    map a | a in p.credited :: Claimable(p, a)
  }

  /** All claims together: they complete the shares, and the balance beyond the refunds covers them. */
  lemma AllClaimsTogether(p: Pool)
    requires Credit(p) && p.stage.ToppedUp?
    ensures p.totalClaimed + Total(Claimables(p)) == Total(Shares(p.credited, Gross(p)))
    ensures Total(Claimables(p)) <= p.balance - p.totalRefundable
  {
    hide Total, Claimable, Entitled;
    var shares := Shares(p.credited, Gross(p));
    EntitledOfNothing(Gross(p));
    forall a ensures At(shares, a) == At(p.claimed, a) + At(Claimables(p), a) {
      ClaimableCompletes(p, a);
    }
    TotalAdds(p.claimed, Claimables(p), shares);
    ClaimsAreBacked(p);
  }

  lemma EntitledOfNothing(gross: nat)
    ensures Entitled(gross, 0) == 0
  {
  }

  // ---------------------------------------------------------------- caps

  ghost function Caps(c: Config, target: map<Address, nat>): map<Address, nat>
    requires At(target, c.operator) >= PREDEPOSIT
  {
    target[c.operator := At(target, c.operator) - PREDEPOSIT]
  }

  /** Total active funding reaches 31 ETH exactly when nobody has anything left to fund. */
  lemma FullExactlyWhenNothingRemains(c: Config, p: Pool)
    requires Agreement(c, p)
    ensures p.totalActive <= TOP_UP
    ensures p.totalActive == TOP_UP <==> forall a :: Remaining(c, p, a) == 0
  {
    hide Total;
    var caps := Caps(c, p.target);
    TotalSet(p.target, c.operator, At(p.target, c.operator) - PREDEPOSIT);
    forall a ensures At(p.active, a) <= At(caps, a) && (Remaining(c, p, a) == 0 <==> At(p.active, a) == At(caps, a)) {
      assert At(p.active, a) <= Cap(c, p.target, a);
    }
    TotalDominated(p.active, caps);
    if p.totalActive == TOP_UP {
      forall a ensures Remaining(c, p, a) == 0 {
        assert At(p.active, a) == At(caps, a);
      }
    }
    if forall a :: Remaining(c, p, a) == 0 {
      forall a ensures At(p.active, a) == At(caps, a) {
        assert Remaining(c, p, a) == 0;
      }
    }
  }

  // ---------------------------------------------------------------- opening

  /** The first `n` entries are admissible: new nonzero addresses, positive targets, the operator's predeposit. */
  ghost predicate Admissible(c: Config, addresses: seq<Address>, targets: seq<nat>, n: nat)
    requires |addresses| == |targets| && n <= |addresses|
  {
    && Distinct(addresses[..n])
    && (forall i :: 0 <= i < n ==> addresses[i] != ZERO_ADDRESS && targets[i] > 0)
    && (forall i :: 0 <= i < n && addresses[i] == c.operator ==> targets[i] >= PREDEPOSIT)
  }

  /** What `_setFundingAttempt` asks of a list of targets, said at once. */
  ghost predicate WellFormedAttempt(c: Config, addresses: seq<Address>, targets: seq<nat>) {
    && 0 < |addresses| <= MAX_PARTICIPANTS
    && |addresses| == |targets|
    && Admissible(c, addresses, targets, |addresses|)
    && c.operator in addresses
    && Sum(targets) == VALIDATOR_DEPOSIT
  }

  function Sum(s: seq<nat>): nat {
    if s == [] then 0 else Sum(s[..|s| - 1]) + s[|s| - 1]
  }

  lemma {:induction false} SumOfPrefix(s: seq<nat>, n: nat)
    requires n <= |s|
    ensures Sum(s[..n]) <= Sum(s)
    decreases |s| - n
  {
    if n < |s| {
      assert s[..n + 1][..n] == s[..n];
      SumOfPrefix(s, n + 1);
    } else {
      assert s[..n] == s;
    }
  }

  lemma AdmissibleStep(c: Config, addresses: seq<Address>, targets: seq<nat>, i: nat)
    requires |addresses| == |targets| && i < |addresses|
    ensures Admissible(c, addresses, targets, i + 1) <==>
            (Admissible(c, addresses, targets, i) && addresses[i] != ZERO_ADDRESS && addresses[i] !in addresses[..i]
             && targets[i] > 0 && (addresses[i] == c.operator ==> targets[i] >= PREDEPOSIT))
  {
    assert addresses[..i + 1] == addresses[..i] + [addresses[i]];
    if Distinct(addresses[..i + 1]) {
      forall k, l | 0 <= k < l < i ensures addresses[..i][k] != addresses[..i][l] {
        assert addresses[..i + 1][k] != addresses[..i + 1][l];
      }
      forall k | 0 <= k < i ensures addresses[k] != addresses[i] {
        assert addresses[..i + 1][k] != addresses[..i + 1][i];
      }
    }
  }

  lemma {:induction false} AdmissiblePrefix(c: Config, addresses: seq<Address>, targets: seq<nat>, i: nat, n: nat)
    requires |addresses| == |targets| && i <= n <= |addresses| && Admissible(c, addresses, targets, n)
    ensures Admissible(c, addresses, targets, i)
    decreases n
  {
    if i < n {
      AdmissibleStep(c, addresses, targets, n - 1);
      AdmissiblePrefix(c, addresses, targets, i, n - 1);
    }
  }

  lemma MemberOfNextPrefix(s: seq<Address>, i: nat, x: Address)
    requires i < |s|
    ensures x in s[..i + 1] <==> x in s[..i] || x == s[i]
  {
    assert s[..i + 1] == s[..i] + [s[i]];
  }

  lemma SumOfNextPrefix(s: seq<nat>, i: nat)
    requires i < |s|
    ensures Sum(s[..i + 1]) == Sum(s[..i]) + s[i]
  {
    assert s[..i + 1][..i] == s[..i];
  }

  /** The loop's checks from entry `i` on, against what they mean for the whole list. */
  lemma {:induction false} TargetsChecked(c: Config, p: Pool, addresses: seq<Address>, targets: seq<nat>, i: nat,
                                          seen: bool)
    requires p.participants == [] && |addresses| == |targets| && i <= |addresses|
    requires Admissible(c, addresses, targets, i)
    requires seen <==> c.operator in addresses[..i]
    ensures TargetsError(c, p, addresses, targets, i, Sum(targets[..i]), seen) == None <==>
            (Admissible(c, addresses, targets, |addresses|) && c.operator in addresses
             && Sum(targets) == VALIDATOR_DEPOSIT)
    decreases |addresses| - i
  {
    hide Admissible;
    if i == |addresses| {
      assert addresses[..i] == addresses && targets[..i] == targets;
    } else {
      var a, t := addresses[i], targets[i];
      hide Sum;
      assert p.participants + addresses[..i] == addresses[..i];
      MemberOfNextPrefix(addresses, i, c.operator);
      SumOfNextPrefix(targets, i);
      SumOfPrefix(targets, i + 1);
      AdmissibleStep(c, addresses, targets, i);
      if Admissible(c, addresses, targets, i + 1) {
        if Sum(targets[..i]) + t <= UINT256_MAX {
          TargetsChecked(c, p, addresses, targets, i + 1, seen || a == c.operator);
        }
      } else if Admissible(c, addresses, targets, |addresses|) {
        AdmissiblePrefix(c, addresses, targets, i + 1, |addresses|);
      }
    }
  }

  /** The loop of reverts accepts exactly the well-formed target lists. */
  lemma AttemptAcceptedExactly(c: Config, p: Pool, addresses: seq<Address>, targets: seq<nat>)
    requires p.participants == []
    ensures AttemptError(c, p, addresses, targets) == None <==> WellFormedAttempt(c, addresses, targets)
  {
    if 0 < |addresses| <= MAX_PARTICIPANTS && |addresses| == |targets| {
      assert addresses[..0] == [] && targets[..0] == [];
      TargetsChecked(c, p, addresses, targets, 0, false);
    }
  }

  lemma {:induction false} AssignedTargets(m: map<Address, nat>, addresses: seq<Address>, targets: seq<nat>, n: nat)
    requires |addresses| == |targets| && n <= |addresses| && Distinct(addresses) && AllZero(m)
    ensures forall k :: 0 <= k < n ==> At(Assigned(m, addresses, targets, n), addresses[k]) == targets[k]
    ensures forall a :: a !in addresses[..n] ==> At(Assigned(m, addresses, targets, n), a) == 0
    ensures Total(Assigned(m, addresses, targets, n)) == Sum(targets[..n])
  {
    hide Total;
    if n == 0 {
      TotalOfZeros(m);
    } else {
      AssignedTargets(m, addresses, targets, n - 1);
      assert addresses[n - 1] !in addresses[..n - 1];
      TotalSet(Assigned(m, addresses, targets, n - 1), addresses[n - 1], targets[n - 1]);
      assert targets[..n][..n - 1] == targets[..n - 1];
      assert addresses[..n] == addresses[..n - 1] + [addresses[n - 1]];
    }
  }

  /** A well-formed list, once written, is an agreement nobody has funded yet. */
  lemma WrittenAttemptAgrees(c: Config, p: Pool, q: Pool, addresses: seq<Address>, targets: seq<nat>)
    requires NoAttempt(p) && WellFormedAttempt(c, addresses, targets)
    requires q.participants == addresses && q.target == Assigned(p.target, addresses, targets, |addresses|)
    requires q.active == p.active && q.totalActive == p.totalActive
    ensures Agreement(c, q)
  {
    hide Total, Assigned;
    AssignedTargets(p.target, addresses, targets, |addresses|);
    assert addresses[..|addresses|] == addresses && targets[..|targets|] == targets;
    TotalOfZeros(p.active);
    forall a ensures (a in addresses <==> At(q.target, a) > 0) && At(q.active, a) <= Cap(c, q.target, a) {
      assert At(p.active, a) == 0;
      if a in addresses {
        var k :| 0 <= k < |addresses| && addresses[k] == a;
        assert At(q.target, addresses[k]) == targets[k];
      }
    }
  }

  lemma OpenKeepsInv(c: Config, p: Pool, caller: Address, now: nat, addresses: seq<Address>, targets: seq<nat>)
    requires Inv(c, p) && OpenEffect(c, p, caller, now, addresses, targets).Effect?
    ensures Inv(c, OpenEffect(c, p, caller, now, addresses, targets).pool)
  {
    hide Total, Assigned, AttemptError, WellFormedAttempt, Agreement;
    AttemptAcceptedExactly(c, p, addresses, targets);
    assert |addresses| == |targets| by { AttemptLengths(c, addresses, targets); }
    assert p.participants + addresses == addresses;
    WrittenAttemptAgrees(c, p, OpenEffect(c, p, caller, now, addresses, targets).pool, addresses, targets);
  }

  lemma AttemptLengths(c: Config, addresses: seq<Address>, targets: seq<nat>)
    requires WellFormedAttempt(c, addresses, targets)
    ensures |addresses| == |targets|
  {
  }

  // ---------------------------------------------------------------- funding, closing, topping up

  lemma FundKeepsInv(c: Config, p: Pool, caller: Address, now: nat, value: nat)
    requires Inv(c, p) && FundEffect(c, p, caller, now, value).Effect?
    ensures Inv(c, FundEffect(c, p, caller, now, value).pool)
  {
    hide Total;
    var q := FundEffect(c, p, caller, now, value).pool;
    TotalSet(p.active, caller, At(p.active, caller) + value);
    forall a ensures At(q.active, a) <= Cap(c, q.target, a) {
      assert At(p.active, a) <= Cap(c, p.target, a);
    }
  }

  lemma {:induction false} ClosingTouches(p: Pool, n: nat)
    requires n <= |p.participants|
    ensures var q := ClosedUpTo(p, n);
            q == p.(active := q.active, refundable := q.refundable, totalRefundable := q.totalRefundable,
                    target := q.target)
  {
    if n > 0 {
      ClosingTouches(p, n - 1);
    }
  }

  /** Closing moves active funding into refunds, participant by participant. */
  lemma {:induction false} ClosingMoves(p: Pool, n: nat)
    requires n <= |p.participants|
    ensures forall a ::
              At(ClosedUpTo(p, n).active, a) + At(ClosedUpTo(p, n).refundable, a)
              == At(p.active, a) + At(p.refundable, a)
    ensures forall a :: At(ClosedUpTo(p, n).active, a) == if a in p.participants[..n] then 0 else At(p.active, a)
    ensures forall a :: At(ClosedUpTo(p, n).target, a) == if a in p.participants[..n] then 0 else At(p.target, a)
  {
    if n > 0 {
      ClosingMoves(p, n - 1);
      assert p.participants[..n] == p.participants[..n - 1] + [p.participants[n - 1]];
    }
  }

  lemma {:induction false} ClosingConserves(p: Pool, n: nat)
    requires n <= |p.participants|
    ensures Total(ClosedUpTo(p, n).active) + ClosedUpTo(p, n).totalRefundable == Total(p.active) + p.totalRefundable
    ensures Total(ClosedUpTo(p, n).refundable) + p.totalRefundable
            == Total(p.refundable) + ClosedUpTo(p, n).totalRefundable
  {
    hide Total, ClosedOne;
    if n > 0 {
      ClosingConserves(p, n - 1);
      var q, a := ClosedUpTo(p, n - 1), p.participants[n - 1];
      ClosedOneConserves(q, a);
    }
  }

  lemma ClosedOneConserves(q: Pool, a: Address)
    ensures Total(ClosedOne(q, a).active) + ClosedOne(q, a).totalRefundable == Total(q.active) + q.totalRefundable
    ensures Total(ClosedOne(q, a).refundable) + q.totalRefundable
            == Total(q.refundable) + ClosedOne(q, a).totalRefundable
  {
    hide Total;
    TotalSet(q.active, a, 0);
    TotalSet(q.refundable, a, At(q.refundable, a) + At(q.active, a));
  }

  lemma CloseKeepsInv(c: Config, p: Pool, now: nat)
    requires Inv(c, p) && CloseEffect(p, now).Effect?
    ensures Inv(c, CloseEffect(p, now).pool)
    ensures CloseEffect(p, now).pool.totalRefundable == p.totalRefundable + p.totalActive
  {
    hide Total;
    var n := |p.participants|;
    ClosingTouches(p, n);
    ClosingMoves(p, n);
    ClosingConserves(p, n);
    assert p.participants[..n] == p.participants;
    var q := ClosedUpTo(p, n);
    forall a ensures At(q.active, a) == 0 && At(q.target, a) == 0 {
      assert At(p.active, a) <= Cap(c, p.target, a);
      assert a in p.participants <==> At(p.target, a) > 0;
    }
    TotalOfZeros(q.active);
  }

  lemma {:induction false} CreditingCopiesTargets(p: Pool, n: nat)
    requires n <= |p.participants| && p.credited == map[]
    ensures forall a :: a in CreditsUpTo(p, n) <==> a in p.participants[..n]
    ensures forall a :: At(CreditsUpTo(p, n), a) == if a in p.participants[..n] then At(p.target, a) else 0
  {
    if n > 0 {
      CreditingCopiesTargets(p, n - 1);
      assert p.participants[..n] == p.participants[..n - 1] + [p.participants[n - 1]];
    }
  }

  lemma {:induction false} CreditingCounts(p: Pool, n: nat)
    requires n <= |p.participants| && Distinct(p.participants) && p.credited == map[] && p.totalCredited == 0
    ensures |CreditsUpTo(p, n)| == n
    ensures Total(CreditsUpTo(p, n)) == CreditTotalUpTo(p, n)
  {
    hide Total;
    if n == 0 {
      TotalOfZeros(map[]);
    } else {
      CreditingCounts(p, n - 1);
      CreditingCopiesTargets(p, n - 1);
      var a := p.participants[n - 1];
      assert a !in CreditsUpTo(p, n - 1);
      TotalSet(CreditsUpTo(p, n - 1), a, At(p.target, a));
    }
  }

  /** After the crediting loop every participant holds their target, and the credits are 32 ETH. */
  lemma CreditedInFull(c: Config, p: Pool)
    requires Agreement(c, p) && NoCredit(p)
    ensures forall a :: At(CreditsUpTo(p, |p.participants|), a) == At(p.target, a)
    ensures |CreditsUpTo(p, |p.participants|)| == |p.participants|
    ensures Total(CreditsUpTo(p, |p.participants|)) == CreditTotalUpTo(p, |p.participants|) == VALIDATOR_DEPOSIT
  {
    hide Total;
    var n := |p.participants|;
    CreditingCopiesTargets(p, n);
    CreditingCounts(p, n);
    assert p.participants[..n] == p.participants;
    forall a ensures At(CreditsUpTo(p, n), a) == At(p.target, a) {
      assert a in p.participants <==> At(p.target, a) > 0;
    }
    TotalDominated(CreditsUpTo(p, n), p.target);
  }

  lemma TopUpKeepsInv(c: Config, p: Pool, caller: Address, now: nat, accepted: bool)
    requires Inv(c, p) && TopUpEffect(c, p, caller, now, accepted).Effect?
    ensures Inv(c, TopUpEffect(c, p, caller, now, accepted).pool)
  {
    hide Total;
    CreditedInFull(c, p);
    TotalOfZeros(map[]);
  }

  // ---------------------------------------------------------------- payouts

  lemma RefundKeepsInv(c: Config, p: Pool, caller: Address, recipient: Address, paid: bool)
    requires Inv(c, p) && RefundEffect(c, p, caller, recipient, paid).Effect?
    ensures Inv(c, RefundEffect(c, p, caller, recipient, paid).pool)
  {
    hide Total;
    TotalSet(p.refundable, caller, 0);
    TotalOfZeros(map[]);
  }

  lemma ClaimKeepsInv(c: Config, p: Pool, caller: Address, recipient: Address, paid: bool)
    requires Inv(c, p) && ClaimEffect(c, p, caller, recipient, paid).Effect?
    ensures Inv(c, ClaimEffect(c, p, caller, recipient, paid).pool)
    ensures Gross(ClaimEffect(c, p, caller, recipient, paid).pool) == Gross(p)
  {
    hide Total;
    ClaimableCompletes(p, caller);
    ClaimFits(p, caller);
    TotalSet(p.claimed, caller, Entitled(Gross(p), At(p.credited, caller)));
    var q := ClaimEffect(c, p, caller, recipient, paid).pool;
    forall a ensures At(q.claimed, a) <= Entitled(Gross(q), At(q.credited, a)) {
      assert At(p.claimed, a) <= Entitled(Gross(p), At(p.credited, a));
    }
  }

  lemma InflowKeepsInv(c: Config, p: Pool, value: nat)
    requires Inv(c, p)
    ensures Inv(c, p.(balance := p.balance + value))
  {
    if p.stage.ToppedUp? {
      forall a ensures At(p.claimed, a) <= Entitled(Gross(p) + value, At(p.credited, a)) {
        EntitledGrows(Gross(p), Gross(p) + value, At(p.credited, a));
        assert At(p.claimed, a) <= Entitled(Gross(p), At(p.credited, a));
      }
    }
  }

  // ---------------------------------------------------------------- every transaction, every run

  lemma CommitKeepsInv(c: Config, p: Pool, caller: Address, value: nat, data: ValidatorData, accepted: bool)
    requires Inv(c, p) && CommitEffect(c, p, caller, value, data, accepted).Effect?
    ensures Inv(c, CommitEffect(c, p, caller, value, data, accepted).pool)
  {
    TotalOfZeros(map[]);
  }

  lemma ExitKeepsInv(c: Config, p: Pool, caller: Address, now: nat, value: nat, maxFee: nat,
                     fee: Option<nat>, accepted: bool, paid: bool)
    requires Inv(c, p) && ExitEffect(c, p, caller, now, value, maxFee, fee, accepted, paid).Effect?
    ensures Inv(c, ExitEffect(c, p, caller, now, value, maxFee, fee, accepted, paid).pool)
  {
  }

  lemma TransferKeepsInv(c: Config, p: Pool, caller: Address, now: nat, value: nat)
    requires Inv(c, p) && TransferEffect(c, p, caller, now, value).Effect?
    ensures Inv(c, TransferEffect(c, p, caller, now, value).pool)
  {
    hide Inv;
    if p.stage.Funding? {
      FundKeepsInv(c, p, caller, now, value);
    } else {
      InflowKeepsInv(c, p, value);
    }
  }

  lemma InvGross(c: Config, p: Pool)
    requires Inv(c, p)
    ensures Gross(p) >= 0
    ensures p.balance >= p.totalRefundable
  {
    if p.stage.ToppedUp? {
      ClaimsAreBacked(p);
    }
  }

  lemma EffectKeepsInv(c: Config, p: Pool, tx: Tx)
    requires Inv(c, p) && EffectOf(c, p, tx).Effect?
    ensures Inv(c, EffectOf(c, p, tx).pool)
  {
    hide Inv, CommitEffect, OpenEffect, FundEffect, TransferEffect, CloseEffect, TopUpEffect, ExitEffect;
    hide RefundEffect, ClaimEffect;
    match tx.action
    case Commit(value, data, accepted) => CommitKeepsInv(c, p, tx.caller, value, data, accepted);
    case Open(addresses, targets) => OpenKeepsInv(c, p, tx.caller, tx.now, addresses, targets);
    case Fund(value) => FundKeepsInv(c, p, tx.caller, tx.now, value);
    case Transfer(value) => TransferKeepsInv(c, p, tx.caller, tx.now, value);
    case Close => CloseKeepsInv(c, p, tx.now);
    case TopUp(accepted) => TopUpKeepsInv(c, p, tx.caller, tx.now, accepted);
    case RequestExit(value, maxFee, fee, accepted, paid) =>
      ExitKeepsInv(c, p, tx.caller, tx.now, value, maxFee, fee, accepted, paid);
    case RefundTo(recipient, paid) => RefundKeepsInv(c, p, tx.caller, recipient, paid);
    case ClaimTo(recipient, paid) => ClaimKeepsInv(c, p, tx.caller, recipient, paid);
    case Force(value) => InflowKeepsInv(c, p, value);
  }

  /** The initial ledger may already hold ETH: forced payments need no deployed code. */
  lemma DeployedHoldsInv(c: Config, prefunded: nat)
    ensures Inv(c, DEPLOYED.(balance := prefunded))
  {
    TotalOfZeros(map[]);
  }

  lemma StepKeepsInv(c: Config, p: Pool, tx: Tx)
    requires Inv(c, p)
    ensures Inv(c, Next(c, p, tx))
    ensures Step(c, p, tx).Done? <==> EffectOf(c, p, tx).Effect?
  {
    hide Inv, EffectOf;
    if EffectOf(c, p, tx).Effect? {
      EffectKeepsInv(c, p, tx);
      InvGross(c, EffectOf(c, p, tx).pool);
    }
  }

  lemma {:induction false} RunKeepsInv(c: Config, p: Pool, txs: seq<Tx>)
    requires Inv(c, p)
    ensures Inv(c, After(c, p, txs))
    decreases |txs|
  {
    if txs != [] {
      StepKeepsInv(c, p, txs[0]);
      RunKeepsInv(c, Next(c, p, txs[0]), txs[1..]);
    }
  }
}
