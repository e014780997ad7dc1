/**
 The beacon preflight of `fund` and `top-up`: one finalized read, head reads before and after a
 person is asked, and one more head read right before the transaction is composed. The node may
 answer every read differently, or not at all.
 */
module BeaconPreflight {
  import opened Options
  import opened Text
  import opened Decimals

  const PREDEPOSIT_GWEI: nat := 1_000_000_000
  const FAR_FUTURE_EPOCH: string := Print(UINT64_MAX)

  datatype Json = Str(text: string) | Bool(flag: bool) | OtherJson

  /** A usable answer comes from a healthy node and has the shape of a validator record. */
  datatype Answer =
    | Unusable
    | Validator(credentials: string, balance: Json, slashed: Json,
                activationEligibilityEpoch: Json, activationEpoch: Json, exitEpoch: Json, withdrawableEpoch: Json)

  datatype StateId = Finalized | Head

  predicate HasCredentials(a: Answer, expected: string) {
    a.Validator? && Lower(a.credentials) == Lower(expected)
  }

  predicate IsFarFuture(epoch: Json) {
    epoch.Str? && ParseUint64(epoch.text).Some? && epoch.text == FAR_FUTURE_EPOCH
  }

  /** `assertFreshPredepositHeadState`: the head balance in Gwei, if every assertion holds. */
  function FreshBalance(a: Answer, expected: string): Option<nat> {
    if !HasCredentials(a, expected) then None
    else if !a.balance.Str? then None
    else
      var balance := ParseUint64(a.balance.text);
      if balance.None? || balance.value < PREDEPOSIT_GWEI then None
      else if a.slashed != Bool(false) then None
      else if !IsFarFuture(a.activationEligibilityEpoch) || !IsFarFuture(a.activationEpoch)
              || !IsFarFuture(a.exitEpoch) || !IsFarFuture(a.withdrawableEpoch) then None
      else balance
  }

  /** The epoch field, read as a number, is the largest 64-bit value. */
  ghost predicate NeverScheduled(epoch: Json) {
    epoch.Str? && Parse(epoch.text) == Some(18_446_744_073_709_551_615)
  }

  /** A validator with these credentials, in whatever case, unslashed, never scheduled, and with balance `b`. */
  ghost predicate Shows(a: Answer, expected: string, b: nat) {
    && a.Validator?
    && SameLetters(a.credentials, expected)
    && 1_000_000_000 <= b <= 18_446_744_073_709_551_615 && a.balance == Str(Print(b))
    && a.slashed == Bool(false)
    && NeverScheduled(a.activationEligibilityEpoch) && NeverScheduled(a.activationEpoch)
    && NeverScheduled(a.exitEpoch) && NeverScheduled(a.withdrawableEpoch)
  }

  /** The string comparisons decide the numbers: a fresh answer shows exactly balance `b` and no epoch set. */
  lemma FreshBalanceExactly(a: Answer, expected: string, b: nat)
    ensures FreshBalance(a, expected) == Some(b) <==> Shows(a, expected, b)
  {
    if a.Validator? {
      LowerExactly(a.credentials, expected);
      FarFutureExactly(a.activationEligibilityEpoch);
      FarFutureExactly(a.activationEpoch);
      FarFutureExactly(a.exitEpoch);
      FarFutureExactly(a.withdrawableEpoch);
      hide Print, Parse, Lower, SameLetters, IsFarFuture, NeverScheduled;
      if a.balance.Str? {
        ParseInvertsPrint(a.balance.text, b);
      }
    }
  }

  lemma FarFutureExactly(epoch: Json)
    ensures IsFarFuture(epoch) <==> NeverScheduled(epoch)
  {
    if epoch.Str? {
      ParseInvertsPrint(epoch.text, UINT64_MAX);
    }
  }

  // ---------------------------------------------------------------- the protocol

  class BeaconNode {
    const answers: seq<Answer>
    var asked: seq<StateId>

    constructor (answers: seq<Answer>)
      ensures this.answers == answers && asked == []
    {
      this.answers := answers;
      asked := [];
    }

    method Read(state: StateId) returns (a: Answer)
      modifies this
      ensures asked == old(asked) + [state]
      ensures a == AnswerTo(answers, |old(asked)|)
    {
      a := AnswerTo(answers, |asked|);
      asked := asked + [state];
    }

    /** The full preflight: the balance it settled on, or nothing. */
    method AssertFreshPredeposit(expected: string, isTty: bool, typed: string) returns (balance: Option<nat>)
      modifies this
      ensures balance == Settled(answers, |old(asked)|, expected, isTty, typed)
      ensures balance.Some? ==>
                asked == old(asked) + [Finalized, Head] + if balance.value > PREDEPOSIT_GWEI then [Head] else []
    {
      hide FreshBalance, HasCredentials, Print, Trim;
      var finalized := Read(Finalized);
      if !HasCredentials(finalized, expected) { return None; }
      var head := Read(Head);
      balance := FreshBalance(head, expected);
      if balance.None? { return; }
      if balance.value <= PREDEPOSIT_GWEI { return; }
      if !isTty { return None; }
      if Trim(typed) != Print(balance.value) { return None; }
      var again := Read(Head);
      var reRead := FreshBalance(again, expected);
      if reRead != balance { return None; }
    }

    /** The preflight, then the recheck the transaction waits for. Returns whether the command goes on to send. */
    method AssertReadyAndStillFresh(expected: string, isTty: bool, typed: string) returns (sends: bool)
      modifies this
      ensures sends <==> Sends(answers, |old(asked)|, expected, isTty, typed)
      ensures sends ==> (asked == old(asked) + [Finalized, Head, Head]
                         || asked == old(asked) + [Finalized, Head, Head, Head])
    {
      hide FreshBalance, HasCredentials, Settled;
      var settled := AssertFreshPredeposit(expected, isTty, typed);
      if settled.None? { return false; }
      var last := Read(Head);
      var balance := FreshBalance(last, expected);
      sends := balance == settled;
    }
  }

  function AnswerTo(answers: seq<Answer>, i: nat): Answer {
    if i < |answers| then answers[i] else Unusable
  }

  function Settled(answers: seq<Answer>, n: nat, expected: string, isTty: bool, typed: string): Option<nat> {
    var first := FreshBalance(AnswerTo(answers, n + 1), expected);
    if !HasCredentials(AnswerTo(answers, n), expected) || first.None? then None
    else if first.value <= PREDEPOSIT_GWEI then first
    else if !isTty || Trim(typed) != Print(first.value) then None
    else if FreshBalance(AnswerTo(answers, n + 2), expected) != first then None
    else first
  }

  function Sends(answers: seq<Answer>, n: nat, expected: string, isTty: bool, typed: string): bool {
    var settled := Settled(answers, n, expected, isTty, typed);
    settled.Some?
    && FreshBalance(AnswerTo(answers, n + if settled.value > PREDEPOSIT_GWEI then 3 else 2), expected) == settled
  }

  /** The answers `first`, `first + 1`, ... all show the same fresh validator with balance `b`. */
  ghost predicate HeadsShow(answers: seq<Answer>, first: nat, count: nat, expected: string, b: nat) {
    forall i :: first <= i < first + count ==> HeadShows(answers, i, expected, b)
  }

  ghost predicate HeadShows(answers: seq<Answer>, i: nat, expected: string, b: nat) {
    i < |answers| && Shows(answers[i], expected, b)
  }

  lemma HeadExactly(answers: seq<Answer>, i: nat, expected: string, b: nat)
    ensures FreshBalance(AnswerTo(answers, i), expected) == Some(b) <==> HeadShows(answers, i, expected, b)
  {
    FreshBalanceExactly(AnswerTo(answers, i), expected, b);
    assert !Shows(Unusable, expected, b);
    hide FreshBalance, Shows;
  }

  /** Everything the run saw agrees on balance `b`, and a person confirmed it if it is above the predeposit. */
  ghost predicate Agreed(answers: seq<Answer>, n: nat, expected: string, isTty: bool, typed: string, b: nat) {
    && n < |answers| && answers[n].Validator? && SameLetters(answers[n].credentials, expected)
    && HeadsShow(answers, n + 1, if b > 1_000_000_000 then 3 else 2, expected, b)
    && (b > 1_000_000_000 ==> isTty && Parse(Trim(typed)) == Some(b))
  }

  /**
   A run reaches the send exactly when the finalized credentials match and every head read, two or,
   with an excess, three, shows matching credentials, no slashing, four unset epochs and one identical
   balance of at least 1 ETH, which a person typed in full on a terminal if it is more than 1 ETH.
   */
  lemma SendsExactly(answers: seq<Answer>, n: nat, expected: string, isTty: bool, typed: string)
    ensures Sends(answers, n, expected, isTty, typed)
            <==> exists b: nat :: Agreed(answers, n, expected, isTty, typed, b)
  {
    hide FreshBalance, Print, Parse, HasCredentials, Trim, Shows;
    var first := FreshBalance(AnswerTo(answers, n + 1), expected);
    if first.Some? {
      SendsOnBalance(answers, n, expected, isTty, typed, first.value);
    }
    forall b: nat | Agreed(answers, n, expected, isTty, typed, b) ensures first == Some(b) {
      assert HeadShows(answers, n + 1, expected, b);
      HeadExactly(answers, n + 1, expected, b);
    }
  }

  lemma SendsOnBalance(answers: seq<Answer>, n: nat, expected: string, isTty: bool, typed: string, b: nat)
    requires FreshBalance(AnswerTo(answers, n + 1), expected) == Some(b)
    ensures Sends(answers, n, expected, isTty, typed) <==> Agreed(answers, n, expected, isTty, typed, b)
  {
    CredentialsExactly(answers, n, expected);
    ParseInvertsPrint(Trim(typed), b);
    hide FreshBalance, Print, Parse, HasCredentials, Trim, SameLetters;
    hide HeadsShow;
    HeadsOneByOne(answers, n + 1, expected, b);
  }

  lemma CredentialsExactly(answers: seq<Answer>, n: nat, expected: string)
    ensures HasCredentials(AnswerTo(answers, n), expected) <==>
            n < |answers| && answers[n].Validator? && SameLetters(answers[n].credentials, expected)
  {
    if n < |answers| && answers[n].Validator? {
      LowerExactly(answers[n].credentials, expected);
    }
  }

  lemma HeadsOneByOne(answers: seq<Answer>, first: nat, expected: string, b: nat)
    ensures HeadsShow(answers, first, 2, expected, b) <==>
            FreshBalance(AnswerTo(answers, first), expected) == Some(b)
            && FreshBalance(AnswerTo(answers, first + 1), expected) == Some(b)
    ensures HeadsShow(answers, first, 3, expected, b) <==>
            HeadsShow(answers, first, 2, expected, b) && FreshBalance(AnswerTo(answers, first + 2), expected) == Some(b)
  {
    hide FreshBalance, HeadShows, AnswerTo;
    HeadExactly(answers, first, expected, b);
    HeadExactly(answers, first + 1, expected, b);
    HeadExactly(answers, first + 2, expected, b);
  }
}
