# A verified model of the validator funding pool and of the scripts that guard it

Two things are modelled, and then joined.

**The pool's ledger.** `contracts/ValidatorFundingPool.sol` is followed branch by branch, twice: as a
function on values (`PoolLedger`, one transaction against one ledger, with reverts in the contract's
order) and as a class with mutable storage, loops and reverts that undo (`PoolContract`). Every entry
point of the class is proved to end exactly as the function says, so the theorems about runs of that
function are theorems about the contract. Runs are unbounded lists of transactions by anybody, with
ETH forced in at any point, any timestamps, and receivers that call back into the pool while being paid
(`PoolReentrancy`). The forwarder contract is treated the same way (`Forwarder`).

**The decision logic of `scripts/lib/common.ts`**, and of the commands that call it: whether a run may
send, and whether what was mined is what was meant. Where the source loops and reassigns, the model is a
method with a loop, proved against a specification that does not mention the loop.

**The join.** The scripts' checks are proved against the ledger: what a funding receipt, a payout
receipt and a sweep's reconciliation accept, and what then happened in the pool, under every
interleaving with other transactions. `FundCommand.Fund` is the whole funding command on a chain where
anything may be mined before each of its reads.

| file | what it holds |
|---|---|
| `Amounts`, `Options`, `Text`, `Selections` | mappings and their sums; optional values; trimming, case, splitting; what a filtering loop picks |
| `PoolLedger`, `PoolInvariant`, `PoolGuards`, `PoolErrors` | transitions; what each keeps; when each succeeds and what it then does and logs; which error it reports |
| `PoolHistory`, `PoolAttempts` | whole runs, and each funding attempt within them |
| `PoolContract`, `PoolReentrancy`, `Forwarder` | the two contracts in their own form; nested calls |
| `FundingRun`, `FundCommand`, `Receipts`, `SweepReconciliation` | the commands and their checks against the ledger |
| `BeaconPreflight` | the finalized read, the head reads and the typed confirmation |
| `CanonicalStructure`, `Replacement` | the canonical rendering; which replacement transactions are accepted |
| `MaskedCode` | deployed code against local builds, immutables masked |
| `Fees`, `Decimals`, `ChainId` | fee cap and gas limit; canonical decimals; the exact chain-id parser |
| `CommandWiring`, `FatalError` | the bracket-matching source scan; the summary of an error's causes |

## What turned out not to hold, and exactly when it does

- *The balance covers refunds and active funding together.* It does until the top-up. The top-up spends
  31 ETH and leaves `totalActiveFundedWei` at 31 ETH, so afterwards it does exactly when all the ETH that
  ever came in as proceeds exceeds all claims so far by at least 31 ETH
  (`PoolHistory.BalanceCoversLiabilities`; a run of four transactions that breaks it is
  `PoolGuards.ToppedUpPoolMayHoldLess`). What the pool owes is covered all the same: the balance always
  covers the refunds, and every claim on top of them.
- *An honest sweep is never accused.* The comment on the check says the forwarder's balance cannot have
  fallen before the sweep. It can: `sweep` is permissionless, and another account's sweep may come first
  in the same block. The check accepts an honest sweep exactly when the forwarder, at that moment, still
  holds its prior-block balance (`SweepReconciliation.HonestSweepAcceptedExactly`,
  `SweepReconciliation.EarlierSweepRaisesFalseAlarm`).
- *The fee cap covers two full blocks.* The comment says the cap is the most the base fee can rise. With
  even gas limits and a base fee of 8 wei or more it is; at an odd gas limit a full block exceeds twice
  its target and the fee rises by more than an eighth (`Fees.CoveredAtEveryBaseFeeExactly`). Below 8 wei
  the fee rises by a whole wei a block (`Fees.EvenLimitsCoveredExactly`).
- *Disjoint immutable ranges are accepted in any order.* So they are when none is empty. An empty range
  is refused when it is declared after the range that starts at the same byte
  (`MaskedCode.EmptyRangesDependOnOrder`); the exact condition for any set of ranges is the pairwise one in
  `MaskedCode.Mask`.
- *The canonical rendering tells different values apart.* It does while strings hold no comma and no
  closing bracket or brace, and keys hold no colon and do not start with a closing brace. Lifting any one
  of these five exclusions admits two values that render alike (`CanonicalStructure.ExclusionsAreExact`).
  Addresses, hashes and signatures are hexadecimal, and the keys are identifiers.

## Model

| member | source | states |
|---|---|---|
| `PoolInvariant.AttemptAcceptedExactly` | contracts/ValidatorFundingPool.sol:596-626 | the loop of reverts accepts a target list if and only if it has 1 to 32 distinct nonzero addresses with positive targets that sum to 32 ETH, the operator among them with at least 1 ETH |
| `PoolInvariant.FullExactlyWhenNothingRemains` | ACCOUNTING.md:62-64 | active funding never exceeds 31 ETH, and equals it if and only if every account's remaining allocation is zero |
| `PoolInvariant.CreditedInFull` | contracts/ValidatorFundingPool.sol:383-390 | the crediting loop gives each participant exactly their target, and 32 ETH in all |
| `PoolInvariant.SharesOfProceeds` | contracts/ValidatorFundingPool.sol:490-502 | for any credits, the floored shares add up to at most the proceeds and miss them by less than one wei per holder |
| `PoolInvariant.ClaimFits` | contracts/ValidatorFundingPool.sol:471-502 | any one claim fits both in the shares not yet claimed and in the balance beyond the refunds |
| `PoolInvariant.AllClaimsTogether` | test/ValidatorFundingPool.ts:148-167 | all claims together are what the shares leave unclaimed, and never more than the balance beyond the refunds |
| `PoolInvariant.CloseKeepsInv` | contracts/ValidatorFundingPool.sol:334-366 | closing turns all active funding into refund claims the balance covers, and leaves nothing of the attempt |
| `PoolInvariant.ClaimKeepsInv` | contracts/ValidatorFundingPool.sol:471-484 | a claim keeps every participant's total within their share of the proceeds |
| `PoolInvariant.StepKeepsInv` | test/ValidatorFundingPool.ts:148-167 | every transaction, successful or reverted, keeps the accounting invariant |
| `PoolInvariant.RunKeepsInv` | test/ValidatorFundingPool.ts:148-167 | so does every run |
| `PoolGuards.CommitSucceedsExactly` | contracts/ValidatorFundingPool.sol:274-305 | the predeposit succeeds if and only if the operator sends exactly 1 ETH to an unused pool with a 48-byte key, 96-byte signatures and nonzero roots and the deposit contract takes it; it then sets the stage and the key and nothing else |
| `PoolGuards.OpeningSucceedsExactly` | contracts/ValidatorFundingPool.sol:311-325 | an opening succeeds if and only if the operator makes it after the predeposit with a well-formed list and a deadline that fits a word; the attempt is then the next one, ends one window from now, has the listed participants and targets, and all else is unchanged |
| `PoolGuards.ClosingSucceedsExactly` | contracts/ValidatorFundingPool.sol:334-366 | a close succeeds if and only if an attempt is open past its deadline, whoever calls; every account's active funding is then added to its refunds, nothing of the attempt is left and all else is unchanged |
| `PoolGuards.RemainingIsTheRest` | contracts/ValidatorFundingPool.sol:511-523 | a participant's target is the active funding, the remaining allocation and, for the operator, 1 ETH; who is no participant has no allocation |
| `PoolGuards.ClaimSucceedsExactly` | contracts/ValidatorFundingPool.sol:471-502 | a claim succeeds if and only if the pool is topped up, the recipient is neither zero nor the pool, something is claimable and the receiver takes it: the pool can always pay. It brings the caller's total to their floored share of 32 ETH in all proceeds so far, and changes nothing but that and the balance |
| `PoolGuards.RefundSucceedsExactly` | contracts/ValidatorFundingPool.sol:452-465 | the same for refunds, in whatever order refunds and claims come; the whole refund is paid, and nothing else changes |
| `PoolGuards.FundingSucceedsExactly` | contracts/ValidatorFundingPool.sol:573-594 | by either route, before the top-up, funding succeeds if and only if an attempt is open and the amount fits the caller's remaining allocation, which shrinks by it while all others stay; only the balance and active funding change |
| `PoolGuards.ExitSucceedsExactly` | contracts/ValidatorFundingPool.sol:410-442 | the operator after commitment, a participant after the top-up, nobody else; a request changes nothing but its own record |
| `PoolGuards.TopUpSucceedsExactly` | contracts/ValidatorFundingPool.sol:376-404 | the top-up succeeds if and only if the operator calls it by the deadline with nobody's allocation open and the deposit contract takes it; credits are then the targets, 32 ETH in all, 31 ETH are gone from the balance, and nothing else has changed |
| `PoolGuards.ToppedUpTakesTransfersOnly` | contracts/ValidatorFundingPool.sol:249-261 | once topped up, a plain transfer from anybody adds to the balance and to nothing else, and the funding call reverts |
| `PoolGuards.LogsTellTheStep` | contracts/ValidatorFundingPool.sol:628-640 | every transaction that succeeds logs its own event with the figures the ledger then holds, and closes with a snapshot of the ledger's totals whose gross proceeds account for balance and claims |
| `PoolGuards.ClosingLogsEveryCredit` | contracts/ValidatorFundingPool.sol:334-366 | a close logs one credit for each funded participant, in order, with the amount and both running totals, then the attempt's end and the snapshot |
| `PoolErrors.FirstComplaintDecides` | contracts/ValidatorFundingPool.sol:274-640 | for every transaction: it goes through if and only if nothing the contract could complain of holds of it, and otherwise reverts with a complaint that does, before which it checks nothing else that holds |
| `PoolGuards.DeadlineSeparates` | test/ValidatorFundingPool.ts:614-637 | no timestamp enables closing together with funding, by either route, or topping up |
| `PoolGuards.OnlyOpeningCanPanic` | contracts/ValidatorFundingPool.sol:504-506 | no checked arithmetic fails in a reachable ledger, except on an oversized target list or window |
| `PoolGuards.EntitlementFitsWord` | contracts/ValidatorFundingPool.sol:490-502 | the product in the entitlement fits 256 bits while the ETH involved is below 2^128 wei |
| `PoolGuards.ToppedUpPoolMayHoldLess` | contracts/ValidatorFundingPool.sol:376-404 | a run after which the balance is zero while active funding still reads 31 ETH |
| `PoolHistory.RunMoves` | contracts/ValidatorFundingPool.sol:628-640 | over any run, every balance and every account's figures change by exactly what the logs record plus forced ETH |
| `PoolHistory.FundingIsNeverLost` | ACCOUNTING.md:12-14 | every wei an account ever funded is active, owed back to it or already refunded to it |
| `PoolHistory.BalanceCoversLiabilities` | test/ValidatorFundingPool.ts:148-167 | over any run, balance covers refunds always, and refunds plus active funding exactly until the top-up or while proceeds received exceed claims by 31 ETH |
| `PoolAttempts.EachAttemptIsConserved` | contracts/ValidatorFundingPool.sol:334-366 | for each attempt and account over any run, what was funded equals what was credited back, plus the active funding if the attempt is the current one |
| `PoolAttempts.RefundsAreClosedFunding` | test/ValidatorFundingPool.ts:551-612 | for each account, refunded plus refundable equals the sum of its funding in all closed attempts |
| `PoolAttempts.CreditIsOwnFunding` | test/ValidatorFundingPool.ts:639-678 | once topped up, an account's credit is what it put into that attempt, plus the predeposit for the operator: no other attempt's funding enters it |
| `PoolAttempts.NextAttempt` | contracts/ValidatorFundingPool.sol:311-366 | the attempt counter never falls, moves by one with an opening from an empty ledger, and an attempt ends only by being closed |
| `PoolHistory.EthIsConserved` | ACCOUNTING.md:12-15 | all ETH in equals the balance, plus what went to the deposit contract, plus claims, plus refunds |
| `PoolHistory.ProceedsAreUnsolicitedEth` | test/ValidatorFundingPool.ts:639-727 | once topped up, gross proceeds are exactly the ETH forced in or sent after the top-up: no attempt's funding is in them |
| `PoolHistory.ClaimSettles` | contracts/ValidatorFundingPool.sol:471-502 | after a claim attempt the account has received its full share of the proceeds so far |
| `PoolHistory.ProceedsOnlyGrow` | ACCOUNTING.md:15-17 | after the top-up gross proceeds never fall, and grow by exactly the ETH that comes in |
| `PoolHistory.CumulativePayoutIgnoresTiming` | test/ValidatorFundingPool.ts:729-765 | whatever the order of proceeds, claims and refunds, an account that claims last has received its share of all proceeds, rounded down once |
| `PoolHistory.DustIsBelowOneWeiEach` | ACCOUNTING.md:17 | with everyone settled, less than one wei per participant is left |
| `PoolHistory.EveryoneClaimsLeavesDust` | test/ValidatorFundingPool.ts:767-789 | and everyone is settled once each has claimed, in any order |
| `PoolContract.ValidatorFundingPool.CommitAndPredeposit` | contracts/ValidatorFundingPool.sol:274-305 | ends as the transition says, writes and reverts included |
| `PoolContract.ValidatorFundingPool.SetFundingAttempt` | contracts/ValidatorFundingPool.sol:596-626 | the loop writes exactly the listed targets, or reports the first error in the contract's order |
| `PoolContract.ValidatorFundingPool.OpenFundingAttempt` | contracts/ValidatorFundingPool.sol:311-325 | ends as the transition says; a refused list leaves no partial writes |
| `PoolContract.ValidatorFundingPool.FundFor` | contracts/ValidatorFundingPool.sol:573-594 | credits the participant up to the cap, or reverts with the first failing check |
| `PoolContract.ValidatorFundingPool.Receive` | contracts/ValidatorFundingPool.sol:249-261 | funds while an attempt is open, takes proceeds once topped up, reverts otherwise |
| `PoolContract.ValidatorFundingPool.CloseExpiredFundingAttempt` | contracts/ValidatorFundingPool.sol:334-366 | the loop over participants moves each one's funding to refunds and clears the attempt |
| `PoolContract.ValidatorFundingPool.TopUpValidator` | contracts/ValidatorFundingPool.sol:376-404 | ends as the transition says; a rejected deposit undoes the credits |
| `PoolContract.ValidatorFundingPool.RequestExit` | contracts/ValidatorFundingPool.sol:415-442 | records the attempt only if fee, request and refund of the excess all go through |
| `PoolContract.ValidatorFundingPool.RefundTo` | contracts/ValidatorFundingPool.sol:452-465 | pays the whole refund claim or leaves everything as it was |
| `PoolContract.ValidatorFundingPool.ClaimTo` | contracts/ValidatorFundingPool.sol:471-484 | pays the whole claimable amount or leaves everything as it was |
| `PoolReentrancy.CallIsFlatRun` | contracts/ValidatorFundingPool.sol:208-213 | any tree of calls made by paid receivers leaves the ledger, and logs the amounts, of a flat run of transactions |
| `PoolReentrancy.NoPayoutInsideAPayout` | contracts/ValidatorFundingPool.sol:208-213 | while a payout is being delivered nothing the lock guards takes effect, at any depth |
| `PoolReentrancy.ReceiverActsAtOnce` | contracts/ValidatorFundingPool.sol:446-484 | what a receiver does while it is being paid acts on the ledger the payout has already changed, and is logged before the payout, unless the lock guards it; then nothing happens |
| `PoolReentrancy.NoPayoutNoReaction` | contracts/ValidatorFundingPool.sol:208-213 | a transaction that pays nobody gives nobody control |
| `Forwarder.SweepIsBalanced` | test/FeeRecipientForwarder.ts:218-230 | no reaction of the receiver makes the forwarder pay out more than it held and was sent, or log anything else |
| `Forwarder.SweepOutcome` | test/FeeRecipientForwarder.ts:161-216 | a sweep succeeds if and only if there is ETH and it is accepted; otherwise nothing changes and it can be retried |
| `Forwarder.ReactionTakesEffect` | test/FeeRecipientForwarder.ts:161-230 | what the pool does while it is being paid takes effect at once: ETH it sends back stays with the forwarder, and a sweep from inside moves exactly that and is logged after the first |
| `Forwarder.FeeRecipientForwarder.Sweep` | contracts/FeeRecipientForwarder.sol:40-48 | the whole balance goes out before the receiver runs, and a failure undoes everything |
| `FundingRun.AcceptedIfNothingMoved` | scripts/lib/common.ts:4406-4454 | if nothing moved since that read, the pool accepts the transfer up to and including the deadline |
| `FundingRun.RoutesDivergeOnlyOnceToppedUp` | ACCOUNTING.md:51-53 | the two funding routes do the same in every ledger if and only if the pool is not topped up; then one reverts and the other is taken as proceeds |
| `FundingRun.RemainingMeansFunding` | contracts/ValidatorFundingPool.sol:511-523 | an account has something left to fund only while an attempt with it is open |
| `FundingRun.ProceedsNeedASecondSendOrAnExpiry` | ACCOUNTING.md:62-74 | from a positive remaining allocation to a topped-up pool, some transaction of the same sender funded that attempt again, or the attempt was closed after its deadline |
| `FundingRun.StrayTransferIsExplained` | scripts/lib/common.ts:4406-4454 | the same for the reviewed attempt, from a last re-read of one moment to the transfer logged as proceeds |
| `FundingRun.LeavingNeedsAClose` | ACCOUNTING.md:70-74 | over any run, an attempt that was funding or topped up is still the current one unless it was closed after its deadline |
| `FundingRun.ReviewedAttemptIsExplained` | scripts/lib/common.ts:4396-4454 | with reads that straddle any blocks in any order, the reviewed attempt is the one funded a second time or closed after its deadline: since the allocation was first read, and since the last re-read began unless it was closed before that, which reading the state no later than the number rules out |
| `FundingRun.OtherAttemptMeansClosed` | scripts/lib/common.ts:4396-4404 | the same reads: a send that finds another attempt than the reviewed one comes after the reviewed one was closed, in the same stretches of time |
| `FundingRun.SecondSendRevertsWhileOpen` | ACCOUNTING.md:68 | a second send that arrives while the attempt is open is refused whole |
| `FundingRun.StrayTransferIsShared` | ACCOUNTING.md:55-60 | a stray transfer gives back the sender's pro-rata part to within one wei, and nothing to an account without credit |
| `FundCommand.PrintAndCheckFundingReview` | scripts/fund.ts:183-224 | attempt, deadline and targets are the ledger's at the moments they were read, and within the pins; if nothing is mined meanwhile, the loop ends with the caller's and the operator's targets |
| `FundCommand.AssertStillFundable` | scripts/lib/common.ts:4406-4454 | answered in any order, it passes if and only if the values the ledger had at the moments of its reads show the reviewed attempt open, its deadline after the head's time, room for the amount, and every declared number, deadline and target in gwei as declared |
| `FundCommand.Fund` | scripts/fund.ts:97-160 | under any interleaving the command sends at most one transaction, of the amount declared or else of all that was left of the allocation; it reverts and moves nothing; or is credited in full and reported so, in the reviewed attempt unless that was closed since it was read; or became proceeds and is reported so, with one of the two causes in the reviewed attempt. With nothing else mined it sends if and only if the attempt is open at the head's time, the pins hold and the amount is positive and fits, and it is then credited if and only if mined by the deadline |
| `FundCommand.DecideAmount` | scripts/fund.ts:97-141 | everything before the send: with nothing mined meanwhile an amount is decided on if and only if those conditions hold, and it is the declared one or else the whole remaining allocation |
| `FundCommand.StillFundableExactly` | scripts/lib/common.ts:4425-4449 | the comparisons of the last re-read decide exactly what is asked of the ledger at the moments of the reads |
| `FundCommand.PinsHoldExactly` | scripts/lib/common.ts:4335-4372 | the pins hold if and only if each one declared has its value: the attempt equal, the deadline not later, the two targets equal to so many gwei in wei |
| `Receipts.CheckFundingWasCredited` | scripts/lib/common.ts:3809-3874 | passes if and only if the receipt holds exactly one funding event of the pool for the signer, with the amount; the other verdicts say what it holds instead |
| `Receipts.FundingExactly` | scripts/lib/common.ts:3816-3843 | of any logs whatever, forged ones included, the amounts collected are those of the pool's own funding events for the signer, each once and in order |
| `Receipts.ProceedsExactly` | scripts/lib/common.ts:3816-3849 | and those of its transfers-as-proceeds events for the signer |
| `Receipts.ReceiptTellsFundingFromProceeds` | scripts/lib/common.ts:3788-3803 | for any funding transaction by either route, the check passes if and only if the signer's active funding rose by exactly the amount |
| `Receipts.PassingCheckMeansCredited` | scripts/lib/common.ts:3809-3874 | for any transaction with any nested calls, a passing check means funding and refund credits rose by the amount together |
| `Receipts.CheckPayoutReachedRecipient` | scripts/lib/common.ts:3972-4035 | passes if and only if there is exactly one payout of that kind for the participant and it names the intended recipient |
| `Receipts.PayoutsExactly` | scripts/lib/common.ts:3980-3998 | of any logs, the payouts collected are those of the pool's own events of that kind for the participant, each once and in order |
| `Receipts.PayoutReceiptNamesTheRecipient` | scripts/lib/common.ts:3972-4035 | a successful claim or refund logs one payout of the whole entitlement as it stood, even if the recipient calls back, so the check passes if and only if the recipient was the intended one |
| `SweepReconciliation.DecodePoolOutflows` | scripts/lib/common.ts:4130-4155 | collects every claim, refund and top-up the pool logged, and nothing emitted by others |
| `SweepReconciliation.OutflowsExactly` | scripts/lib/common.ts:4130-4155 | of any logs, the outflows decoded are those of the pool's own claims, refunds and top-up, each once, in order, under its own name and with its amount, 31 ETH for the top-up |
| `SweepReconciliation.SweptAmounts` | scripts/lib/common.ts:4295-4316 | collects the forwarder's own events for the signer |
| `SweepReconciliation.SweptExactly` | scripts/lib/common.ts:4295-4316 | of any logs, the amounts are those of the forwarder's own events for the signer, each once and in order |
| `SweepReconciliation.CheckSweepWasCredited` | scripts/lib/common.ts:4206-4292 | accepts if and only if there is one such event, not below the prior-block balance, and the reconciled inflow is not below it either |
| `SweepReconciliation.CreditedIsInflow` | scripts/lib/common.ts:4115-4163 | balance change plus logged outflows is exactly the ETH that came in, whatever the block did |
| `SweepReconciliation.AcceptanceMeansCredited` | scripts/lib/common.ts:4206-4292 | no missed loss, for any forwarder code: acceptance means that much ETH entered the pool in that block |
| `SweepReconciliation.HonestSweepAcceptedExactly` | scripts/lib/common.ts:4206-4292 | an honest sweep is accepted if and only if the forwarder still held its prior-block balance, whatever else the block holds, other contracts' logs of any shape included |
| `SweepReconciliation.FirstSweepInABlockIsAccepted` | scripts/sweep.ts:73-107 | no false alarm whatever shares the block, if no other sweep of the forwarder came first |
| `SweepReconciliation.EarlierSweepRaisesFalseAlarm` | scripts/lib/common.ts:4206-4292 | an earlier sweep by someone else makes the check accuse an honest one, with every wei in the pool |
| `SweepReconciliation.RunSweep` | scripts/sweep.ts:47-111 | the command around one sweep: accepted if and only if as above, and confirmed to the wei when alone in its block |
| `BeaconPreflight.FreshBalanceExactly` | scripts/lib/common.ts:2714-2760 | a head answer passes with a balance if and only if it is a validator with the expected credentials letter by letter in either case, unslashed, all four epochs the largest 64-bit value and the balance that number, at least 10^9 gwei |
| `BeaconPreflight.SendsExactly` | scripts/lib/common.ts:2631-2753 | against any answers, a run reaches the send if and only if the finalized answer is a validator with the expected credentials, letter by letter in either case, and the two or three head answers all show one fresh balance, typed exactly if above 1 ETH |
| `BeaconPreflight.BeaconNode.AssertFreshPredeposit` | scripts/lib/common.ts:2658-2710 | asks for finalized, then head, then head again only after an excess balance, and settles on a balance accordingly |
| `BeaconPreflight.BeaconNode.AssertReadyAndStillFresh` | scripts/lib/common.ts:2631-2656 | the preflight and the recheck read in that order and decide the send |
| `Decimals.StringsDecideNumbers` | scripts/lib/common.ts:44-46 | two canonical decimals are the same string if and only if they are the same number |
| `Decimals.ParseInvertsPrint` | scripts/lib/common.ts:1091-1099 | parsing accepts the printed form of a number and nothing else, with or without the 64-bit bound |
| `Decimals.ValueByPlace` | scripts/lib/common.ts:1091-1099 | the number a string of digits denotes is its place value to base ten |
| `Decimals.WrittenListParses` | scripts/lib/common.ts:1338-1342 | a list written with commas and any white space around the numbers parses back entry for entry |
| `Decimals.ListAcceptedExactly` | scripts/lib/common.ts:1338-1342 | and nothing else is accepted |
| `CanonicalStructure.RenderingDecides` | scripts/lib/common.ts:1018-1035 | for clean values, equal renderings if and only if the values agree up to the case of strings, the order of keys and undefined entries |
| `CanonicalStructure.ExclusionsAreExact` | scripts/lib/common.ts:1018-1035 | the rendering tells all clean values apart, and no longer does once any one of the five exclusions is lifted |
| `CanonicalStructure.ReadOneValue` | scripts/lib/common.ts:1023-1035 | a rendering can be read off the front of a text in only one way |
| `CanonicalStructure.AgreeingRenderAlike` | scripts/lib/common.ts:1018-1035 | agreeing values render alike, delimiters or not |
| `CanonicalStructure.ObjectsAgreeByFields` | scripts/lib/common.ts:1027-1032 | filtering and sorting the entries compares two objects as the sets of fields they are |
| `CanonicalStructure.CommaInStringCollides` | scripts/lib/common.ts:1025-1026 | a string with a comma in it can render like an array's two strings |
| `CanonicalStructure.BracketInStringCollides` | scripts/lib/common.ts:1025-1026 | a string with a closing bracket can move out of an array |
| `CanonicalStructure.BraceInStringCollides` | scripts/lib/common.ts:1025-1032 | a string with a closing brace can move a field out of an object |
| `CanonicalStructure.ColonInKeyCollides` | scripts/lib/common.ts:1031 | a key with a colon can take over the start of its value |
| `CanonicalStructure.BraceBeforeKeyCollides` | scripts/lib/common.ts:1031-1032 | a key that starts with a closing brace can split its object in two |
| `Replacement.DifferingSemanticFields` | scripts/lib/common.ts:994-1011 | names the fields that differ, in declaration order |
| `Replacement.NamedExactlyWhenDiffers` | scripts/lib/common.ts:990-1011 | the names are those of exactly the fields that differ, in declaration order: another destination or one where there was none, letter by letter in either case, another value, other input, and any structured field that does not agree |
| `Replacement.NoDifferenceExactlyWhenSameMeaning` | scripts/lib/common.ts:994-1016 | no field is named if and only if both destinations are absent or have the same letters, the values are equal, the inputs have the same letters and the four structured fields agree |
| `Replacement.SameMeaningIsEquivalence` | scripts/lib/common.ts:994-1016 | meaning the same is an equivalence on all transactions, whatever their strings hold |
| `Replacement.RepricesKeepMeaning` | scripts/lib/common.ts:961-988 | any number of acceptable reprices in a row keeps the meaning of the first |
| `Replacement.WaitForSenderVerifiedReceipt` | scripts/lib/common.ts:903-945 | sender, then replacement, then status decide the outcome |
| `Replacement.AcceptedExactly` | scripts/lib/common.ts:860-945 | whatever reason the client reports, a receipt is accepted if and only if the sender has the expected letters, it succeeded, what was mined means what was signed, and a replacement is called a reprice |
| `Replacement.RefusedExactly` | scripts/lib/common.ts:903-945 | and each refusal exactly: the wrong sender first, then a replacement that is no reprice or means something else, with the fields on which it does, then a failed status |
| `Text.LowerExactly` | scripts/lib/common.ts:1037-1040 | two texts are equal in lower case if and only if they have the same length and at every place the same character or the same ASCII letter in its two cases |
| `MaskedCode.DecodeEncode` | scripts/lib/common.ts:2189-2244 | writing bytes as hexadecimal and reading them back gives the bytes |
| `MaskedCode.EncodeDecode` | scripts/lib/common.ts:2189-2244 | reading hexadecimal and writing it gives the text in lower case |
| `MaskedCode.SortedChainExactly` | scripts/lib/common.ts:2211-2225 | sorted by start, no neighbours overlap if and only if no two declared ranges do |
| `MaskedCode.NoNeighboursOverlap` | scripts/lib/common.ts:2212-2225 | the loop over neighbours decides all pairs |
| `MaskedCode.LengthsCountPositions` | scripts/lib/common.ts:2227-2228 | the sum of the lengths is the number of distinct positions zeroed |
| `MaskedCode.ZeroRanges` | scripts/lib/common.ts:2242 | filling in place zeroes the covered bytes and leaves every other |
| `MaskedCode.MaskImmutableRanges` | scripts/lib/common.ts:2180-2245 | the loops, the sort and the in-place fill compute the masking that MaskedExactly says in terms of the text |
| `MaskedCode.MaskedExactly` | scripts/lib/common.ts:2180-2245 | each of the four refusals exactly; otherwise the masked text is 0x, two zeros for every position in a range and the code's own two digits in lower case for every other, and the count is that of the positions covered |
| `MaskedCode.DeclaredExactly` | scripts/lib/common.ts:2190-2209 | the ranges considered are those of every reference, one after another, and no others |
| `MaskedCode.HexDigitExactly` | scripts/lib/common.ts:2186 | the hex digits are the twenty-two characters 0-9, a-f and A-F |
| `MaskedCode.PositiveRangesInAnyOrder` | scripts/lib/common.ts:2211-2225 | ranges of positive length are accepted if and only if they are disjoint, in any declaration order |
| `MaskedCode.EmptyRangesDependOnOrder` | scripts/lib/common.ts:2211-2225 | an empty range is accepted before the one that starts with it and refused after it |
| `MaskedCode.MaskedAlikeExactly` | scripts/lib/common.ts:2293-2296 | masked codes are equal if and only if the codes agree outside the ranges; they then differ in at most 2048 bytes |
| `MaskedCode.AssertRuntimeCodeMatchesLocalBuild` | scripts/lib/common.ts:2265-2321 | the first candidate that is not merely different decides, and only if all are different is no build found |
| `MaskedCode.SameExactly` | scripts/lib/common.ts:2278-2303 | said of the two texts: a candidate matches if and only if both are 0x and whole hex bytes of one length, the declared ranges are in bounds, apart and cover at most 2048 positions, and at every position outside them both texts have the same two digits, in either case |
| `MaskedCode.RefusedExactly` | scripts/lib/common.ts:2278-2293 | the comparison is given up if and only if the build is not 0x and hex digits, or the two codes have one length and one of them cannot be masked, the build named first |
| `Fees.TwoFullBlocksAreWorst` | scripts/lib/common.ts:3560-3566 | no usage of two blocks raises the base fee more than two full ones |
| `Fees.EvenLimitsCoveredExactly` | scripts/lib/common.ts:3576-3606 | with even gas limits the cap covers two blocks if and only if the base fee is at least 8 wei or the cap leaves 2 wei to spare |
| `Fees.CoveredAtEveryBaseFeeExactly` | scripts/lib/common.ts:3576-3606 | it covers them at every base fee from 8 wei up if and only if both gas limits are even |
| `Fees.OddLimitEscapes` | scripts/lib/common.ts:3560-3566 | the base fee that escapes at an odd limit: 64 times its target |
| `Fees.ResolveSuggestedFees` | scripts/lib/common.ts:3576-3606 | the priority fee falls back to the estimate and then to 1 wei; the maximum is at least it and at least the cap |
| `Fees.ApplyGasMargin` | scripts/lib/common.ts:3634-3645 | the largest limit within 120% of the estimate and 95% of the block, refused if and only if the estimate is above that 95% |
| `ChainId.PinnedExactly` | hardhat.config.ts:83-110 | a chain id is pinned if and only if its own decimal was declared, from 1 to 2^53 - 1 |
| `ChainId.RefusedExactly` | hardhat.config.ts:83-110 | the other outcomes: nothing declared, not a canonical positive decimal, 2^53 or more |
| `ChainId.LargeStaysLarge` | hardhat.config.ts:92-100 | no number of 2^53 or more is converted to a safe integer |
| `ChainId.ConversionIsNearestEven` | hardhat.config.ts:92-99 | the modelled conversion is the nearest multiple of the unit, the even one on a tie |
| `ChainId.FirstInexact` | hardhat.config.ts:93-94 | 2^53 + 1 is converted to 2^53 |
| `CommandWiring.TopLevelParts` | test/CommandWiring.ts:59-76 | the scan returns the trimmed, non-empty pieces between commas at depth zero |
| `CommandWiring.NoTopCommaExactly` | test/CommandWiring.ts:64-72 | the scan meets no top-level comma if and only if no comma stands where the brackets before it balance |
| `CommandWiring.DepthCounts` | test/CommandWiring.ts:65-66 | the depth is the number of (, [ and { less the number of ), ] and } |
| `CommandWiring.NonEmptyExactly` | test/CommandWiring.ts:75 | exactly the empty parts are dropped, wherever they stand, and the others keep their order |
| `CommandWiring.CutExactly` | test/CommandWiring.ts:59-76 | those pieces are the one way to write the text as separable pieces joined by commas |
| `CommandWiring.PartsOfJoin` | test/CommandWiring.ts:59-76 | splitting a joined list of proper parts gives back the parts |
| `CommandWiring.CallsMatching` | test/CommandWiring.ts:96-111 | from each opener, exactly the shortest slice whose parentheses come back to zero, none if they never do |
| `CommandWiring.CallsInOrder` | test/CommandWiring.ts:96-111 | there is one such slice for each match whose parenthesis is closed, in the order of the matches |
| `CommandWiring.FoundCallIsMatched` | test/CommandWiring.ts:48-51 | such a slice ends at the matching parenthesis: the depth stays positive up to there |
| `CommandWiring.ParenDepthCounts` | test/CommandWiring.ts:100-104 | the depth there counts round brackets alone |
| `CommandWiring.CarriesFieldsLast` | test/CommandWiring.ts:85-92 | decides the predicate the two lemmas below give a meaning to |
| `CommandWiring.CarriesLiteralExactly` | test/CommandWiring.ts:78-92 | a call whose last argument is an object literal, spaced in any way and with or without a trailing comma, carries the fields if and only if the spread is its last element and no element begins with a fee key, a longer name such as `typeId` included |
| `CommandWiring.CarriesArgumentExactly` | test/CommandWiring.ts:80-92 | any other call, one without arguments included, carries them if and only if its last argument is `fields` itself |
| `FatalError.DescribedByField` | scripts/lib/common.ts:647-681 | message, decoded error, reason, signature, call, sender and details each contribute their labelled lines in that order: every one that is not blank, and nothing else |
| `FatalError.MessageComesFirst` | scripts/lib/common.ts:651-659 | the short message, or else the message, comes first, line by line in its order |
| `FatalError.NotBlankExactly` | scripts/lib/common.ts:680 | exactly the lines that are all white space are dropped, and the order stays |
| `FatalError.JoinArgumentsExactly` | scripts/lib/common.ts:687 | the arguments are listed with a comma and a space between them |
| `Text.JoinInvertsSplit` | scripts/lib/common.ts:655-659 | splitting a message into lines loses nothing and leaves no separator in a line |
| `FatalError.ChainFollowsCauses` | scripts/lib/common.ts:616-625 | on any graph, cyclic or not, the walk follows the causes, meets no object twice, takes at most eight steps and stops early only at a primitive, at nothing, or at an object already seen |
| `FatalError.DescribeFatalError` | scripts/lib/common.ts:611-629 | the loop collects that walk's lines and hoists the decoded reverts |
| `FatalError.CollectExactly` | scripts/lib/common.ts:694-698 | appending unless present keeps exactly the lines that are not blank, each once |
| `FatalError.CollectedInOrder` | scripts/lib/common.ts:694-698 | the lines are collected in the order in which they first occur, up to white space at the end |
| `Text.TrimExactly` | scripts/lib/common.ts:694-698 | trimming keeps one slice of the text, with nothing but white space around it and none at its ends |
| `FatalError.DescriptionIsComplete` | scripts/lib/common.ts:611-629 | a line is printed, once, if and only if some error visited yields it, or none yields any and the error's own text does; something is printed if and only if there is something to say |
| `FatalError.PlainValuesPrintThemselves` | scripts/lib/common.ts:611-629 | what is not an object prints as it reads, without white space at the end, and a blank one not at all |
| `FatalError.HoistReorders` | scripts/lib/common.ts:638-645 | hoisting is a permutation that keeps the order within both groups and puts all decoded reverts right after the first other line |
| `FatalError.SelectExactly` | scripts/lib/common.ts:638-645 | a group is exactly the lines that begin, or do not begin, like a decoded revert, in their order |
| `FatalError.LabelsDecide` | scripts/lib/common.ts:639-640 | of the labelled lines, the decoded reverts are the contract error and the revert reason |

## Left out

- BLS signatures, SSZ roots, keccak and the deposit contract's own checks: roots and signatures are opaque values, and whether the deposit contract takes a deposit is a parameter of the step.
- The deposit contract and the withdrawal-request predeploy do not call back into the pool; payout receivers and the excess-fee refund may, to any depth.
- `constructor` checks of the two contracts: they only compare addresses and code sizes.
- Withdrawal credentials, public getters without arithmetic, and the stored roots and signatures: written once and never read by the accounting.
- Word width: amounts are unbounded, and 256-bit overflow is modelled where it is reachable, in the sum of targets and the deadline (`PoolGuards.OnlyOpeningCanPanic`, `PoolGuards.EntitlementFitsWord`).
- Gas, mempool and block producers: a run is any list of transactions with any timestamps.
- ABI encoding of logs: logs are typed values that carry the emitting address; addresses are numbers, so their spelling plays no part.
- Ledger devices, keystores, signer selection, clear-signing text, environment variables, file reading and record shapes: single refusals around the decisions modelled here.
- `readPredepositAndTopUpDepositData`: which of two deposit files is which; record checks without a deeper property.
- FundCommand.Fund: the beacon preflight, the deployment checks, the fee fields and the wait for the receipt are modelled separately; each only makes the command refuse more often.
- BeaconPreflight.BeaconNode.AssertFreshPredeposit: an unhealthy node, a malformed record and an aborted read are one unusable answer.
- CanonicalStructure.RenderingDecides: numbers are integers; fractions, exponents, symbols and functions do not occur in transaction fields. Keys are ordered by code point where JavaScript orders by UTF-16 unit, which differs only outside the basic plane.
- Replacement.SameMeaningIsEquivalence: lower-casing is that of the ASCII letters, all that hexadecimal text has.
- MaskedCode.MaskImmutableRanges: starts and lengths are integers; the refusal of fractional ones is not modelled. Sorting is a function, as the source leaves it to the language's stable sort.
- Fees.ResolveSuggestedFees: the network reads are its parameters; gas limits are those whose target is at least 1.
- ChainId.ConversionIsNearestEven: only the conversion of non-negative integers, as the regular expression admits nothing else.
- CommandWiring.CallsMatching: regular-expression matching is left out; matches are given as positions and lengths that end at an opening parenthesis.
- FatalError.DescribeFatalError: values are read as strings already; getters that throw and non-string fields other than as absent are not modelled.
- The end-to-end harness, status printing and formatting.
