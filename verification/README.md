# A verified model of NogoChain's core

This project models, in Dafny 4.11, the parts of the NogoChain node where a mistake costs money or consensus, and
proves what they keep over all inputs, all runs and all interleavings.

- **The ledger** (`Ledger`, `LedgerLaws`, `LedgerExamples`, `BlockRule`, `Copies`, `Monetary`): how a block is applied to
  accounts, in the validator's dry run and in the chain's commit; exactly which blocks are accepted, told from the block and
  the state before it; conservation of supply, nonce order, the reward curve, issuance over reward years.
- **Block validation** (`Validation`, `ValidationExamples`): chain ids, batched and single signature checks, coinbase economics, dry run.
- **Admission and selection** (`Admission`, `AdmissionRule`, `Selection`, `SelectionRule`, `Funding`, `SelectionExamples`):
  exactly which transactions enter the pool, go into a block or are evicted, tied to what the ledger will later accept.
- **Rate limits** (`TokenBuckets`, `IPLimiter`): token buckets over real time, per client, with sweeping.
- **Contracts** (`Shares`, `Rewards`, `Governance`, `GovernanceRule`): proportional rewards and the community fund.
- **Batch submission** (`BatchWorkers`, `BatchHandler`): the worker pool as a state machine over the steps of its
  goroutines, and the request around it.
- **WebSocket frames** (`Masking`, `Frames`): section 5 of RFC 6455 as far as the server implements it.
- **Consensus helpers** (`Election`, `Candidates`, `CandidateExamples`, `TimeRules`, `Tips`): candidate election, median-time-past, tips.
- `Machine` (Go's fixed-width integers), `Sums` (sums over maps) and `Sorting` are shared.

Unsigned and signed 64-bit arithmetic wraps in the model wherever the source does not guard it, so laws are stated with
their wrap terms first, and then with the exact condition under which these vanish. Code that changes state in place is
a class or a method, proved against a specification function; laws over runs are lemmas about those functions. The
`Rule` modules, and lemmas named `...Iff` and `...Exact`, say what these functions decide without naming them: from the
inputs alone, in both directions.

Promises that do not hold of the code as it stands are kept as results, each with a concrete input and the exact
condition under which the promise does hold:

| promise | fails for | holds exactly when |
|---|---|---|
| supply is conserved (validator) | `LedgerExamples.ConservationFails` | no transfer wraps Amount + Fee (`LedgerLaws.ConservationIff`) |
| dry run and commit agree | `LedgerExamples.CopiesDiffer` | no wrapped debit, room for the reward, and the genesis address pays without it (`Copies.CopiesAgreeIff`) |
| admitted transactions replay | `Admission.StaleReplacementAccepted`, `Admission.WrappedSumAccepted` | live nonce, every prefix of the debits covered (`Admission.AdmissionSoundIff`) |
| a selection replays without a funds error | `SelectionExamples.SelectionNotFunded` | every transfer is covered by its sender's balance and receipts so far (`Funding.SelectionFundedIff`) |
| both signature paths agree | `ValidationExamples.OrdinaryBlockRefused`, `ValidationExamples.BadFieldAccepted` | signatures good for both messages (`Validation.PathShowsIff`, `Validation.PathShowsWithoutStateIff`) |
| the rewards map pays the pool | `Rewards.SharedAddressLoses` | no two qualified nodes with a base share have one address (`Rewards.PaysPoolIff`) |
| the remainder is below the number of nodes | `Rewards.WrappedProductLeavesAll` | no product of score and pool wraps (`Rewards.RemainderBelowNodes`) |
| sweeping is unobservable, and the rate is kept | `IPLimiter.SweepShows`, `IPLimiter.ProbeExceedsRate` | 600 * rps >= burst (`IPLimiter.SweepUnobservableIff`, `IPLimiter.ClientRateBoundIff`) |
| the reported wait suffices | `TokenBuckets.ThirdIsCut`; every request beyond the capacity or over 1000 | n <= 1000, n <= capacity and the exact wait is a whole number of nanoseconds (`TokenBuckets.WaitIsExact`) |
| the verdict is the rule's | `Governance.WrappedVotes` | `Governance.VerdictRightIff` while the votes' sum fits, `Governance.WrappedVerdictRightIff` when it wraps |
| the winner is order-independent | `CandidateExamples.LengthsChangeWinner`, `CandidateExamples.TieChangesWinner` | some candidate is before every other one (`Election.WinnerFixedIff`) |
| node totals add up to TotalDistributed | `Rewards.TotalsDisagree` | their sum fits into uint64 (`Rewards.TotalsAgreeIff`) |
| tallies are the summed votes | `Governance.TallyWraps` | the sum fits into uint64 (`Governance.TallyExactIff`) |
| the fund is what was added less what was executed | `Governance.FundSaturates` | no addition saturated (`Governance.FundBalanceIff`) |

The batch signature path hashes a transfer together with the block height (blockchain/consensus/validator.go:507-614),
while the single path and the dry run hash it without (blockchain/core/encoding.go:227-232). The model keeps both hashes
apart; `Validation.LargeBlocksRefused` says what follows where they differ.

Comments in the source that the code does not bear out: an evicted transaction is removed at once, not after three
skipped cycles (blockchain/cmd/wrappers.go:112); `SelectMempoolTxs` lowers a local copy of the balance
(blockchain/cmd/wrappers.go:137), so picks of one sender are checked against the same balance one by one. The model
follows the code.

`dafny verify dfyconfig.toml` checks the whole project.

## Model

| member | source | states |
|---|---|---|
| `Monetary.BlockReward` | blockchain/config/monetary_policy.go:133-170 | the early-exit decay loop returns the curve that Monetary.YearlyDecay, Monetary.RewardWithinYear and Monetary.OneCurve pin down, in a number of rounds bounded by the initial reward and not by the height |
| `Monetary.YearlyDecay` | blockchain/config/monetary_policy.go:148-159 | between any height and the one 1051200 blocks later: nine tenths of the reward, rounded down, or the floor where that is not above it |
| `Monetary.RewardWithinYear` | blockchain/config/monetary_policy.go:133-170 | the initial reward, or a higher floor, below height 1051200, and one reward in each stretch of 1051200 blocks |
| `Monetary.OneCurve` | blockchain/config/monetary_policy.go:133-170 | whatever starts with that reward and decays so is the block reward, at every height |
| `Monetary.DefaultRewards` | blockchain/config/monetary_policy.go:134-141 | 800000000 at every height without an initial reward; a floor of 10000000 without a minimum |
| `Monetary.ShippedRewards` | blockchain/config/monetary_policy.go:133-170 | the shipped rewards in numbers: 800000000 up to height 1051199, 720000000 at 1051200, 648000000 at 2102400 |
| `Monetary.RewardNonIncreasing` | blockchain/config/monetary_policy.go:133-170 | rewards never rise with height, never fall below the floor and stay at the floor once there |
| `Monetary.MinerFeeAmount` | blockchain/config/monetary_policy.go:231-236 | with a share of at most 100% the miner never gets more than the fees, even when the unguarded product wraps |
| `Monetary.CoinbaseBound` | blockchain/core/chain_struct.go:154-166 | coinbase and genesis share together never exceed the reward plus the fees, wrapped or not |
| `Monetary.IssuanceBoundClosedForm` | blockchain/config/monetary_policy.go:133-170 | the issuance bound in closed form: blocks per year times (ten initial rewards plus one floor reward a year) |
| `Monetary.CurveTelescopes` | blockchain/config/monetary_policy.go:148-159 | every year of the decay curve is paid for by ten times what the curve loses that year, rounding down included |
| `Monetary.TotalRewardBound` | blockchain/config/monetary_policy.go:133-170 | all rewards below the end of any reward year together stay within that bound |
| `Monetary.TotalRewardFromBelow` | blockchain/config/monetary_policy.go:133-170 | and from below: at least ten initial rewards for every block of a year, less ten times the reward then reached and 9 a year for rounding; and the floor reward for every block |
| `Ledger.WorldState.CreditAccount` | blockchain/consensus/validator.go:657-663 | the guarded credit to an account: the balance grows by exactly the amount or nothing is written |
| `Ledger.WorldState.TransferTx` | blockchain/consensus/validator.go:664-690 | one transfer in place, with its checks in order; the debit stays written when the credit then overflows |
| `Ledger.CheckCoinbase` | blockchain/consensus/validator.go:627-645 | the fee loop and the coinbase checks find the first economic rule the coinbase breaks |
| `Ledger.WorldState.ApplyTransactions` | blockchain/consensus/validator.go:648-695 | the loop over the transactions in place |
| `Ledger.WorldState.ApplyBlockToState` | blockchain/consensus/validator.go:616-696 | the loops over the account map do what the recursive block rule says, error and state alike, for both copies of the rule; BlockRule tells that rule from the block alone |
| `BlockRule.TxFault` | blockchain/consensus/validator.go:648-694 | one transaction has exactly the error of the first rule it breaks, given its sender's nonce and balance and its recipient's room |
| `BlockRule.RefusedLeaves` | blockchain/consensus/validator.go:677-690 | a refused transaction leaves the state alone, except that a transfer whose credit overflows leaves its debit written |
| `BlockRule.AppliedIff` | blockchain/consensus/validator.go:648-695 | the transactions of a block are applied if and only if each is well formed, next in its sender's count, paid for and within its recipient's room, all told from sums over the transactions before it |
| `BlockRule.RefusedFor` | blockchain/consensus/validator.go:648-695 | otherwise the error is the fault of the first transaction at fault |
| `BlockRule.ExpectedIsRight` | blockchain/consensus/validator.go:640-645 | the expected coinbase is (reward * minerRewardShare mod 2^64) / 100 + (fees * minerFeeShare mod 2^64) / 100, whatever wraps on the way |
| `BlockRule.PlainPercentage` | blockchain/config/monetary_policy.go:231-236 | which are plain percentages where the products fit |
| `BlockRule.BlockAcceptedIff` | blockchain/core/chain_struct.go:116-230 | for both copies, every state and every block: accepted if and only if the coinbase goes to the block's miner with exactly that amount, the miner's address and the size are in order, the genesis address has room for its share, and every transaction is fine |
| `BlockRule.BlockRefusedFor` | blockchain/core/chain_struct.go:116-174 | otherwise the error is the block's first fault, in the order of the checks, or that of its transactions |
| `BlockRule.BlockLeaves` | blockchain/core/chain_struct.go:165-228 | what an accepted block leaves in every account: old balance + received - charged, the genesis share at its address, and one nonce more per own transfer |
| `BlockRule.WrongCoinbaseRefused` | blockchain/consensus/validator.go:635-645 | a coinbase to anybody but the miner, or of any other amount, is refused by both copies |
| `LedgerLaws.TxSupply` | blockchain/consensus/validator.go:648-694 | one applied transaction changes the supply by minted minus fee, plus 2^64 if its debit wrapped; sender, recipient and miner may coincide |
| `LedgerLaws.BlockSupply` | blockchain/consensus/validator.go:616-696 | the same law for a whole accepted block, genesis share included |
| `LedgerLaws.ChainSupply` | blockchain/consensus/validator.go:616-696 | along every accepted chain: supply after = supply before + minted - fees + 2^64 for every wrapped debit |
| `LedgerLaws.ConservationIff` | blockchain/consensus/validator.go:676-682 | minted minus burnt is exactly what the supply changes by if and only if no transfer on the chain wraps Amount + Fee |
| `LedgerLaws.CoreChainConserves` | blockchain/core/chain_struct.go:206-210 | behind the guard on Amount + Fee conservation holds on every accepted chain |
| `LedgerLaws.CopiesAgreeOnTx` | blockchain/core/chain_struct.go:177-228 | on one transaction the two copies of the rule differ exactly by the overflow guard |
| `LedgerLaws.CopiesAgree` | blockchain/core/chain_struct.go:116-230 | for every block and policy: the commit is the dry run from the state with the genesis share paid, less blocks with a wrapped debit, over the size limit or with a miner address only the dry run takes |
| `Copies.CopiesAgreeIff` | blockchain/core/chain_struct.go:116-230 | from the same state, for every block and policy: the commit accepts and the genesis address pays its transfers without the new reward, if and only if the dry run accepts without a wrapped debit and with room for the reward after every transaction; the states then differ by the reward at that address and nowhere else |
| `Copies.RaisedTxs` | blockchain/core/chain_struct.go:165-228 | applying with room for a reward after every prefix is applying from the raised balance with every debit covered without it; the results differ by the reward |
| `LedgerLaws.TxAccount` | blockchain/consensus/validator.go:664-690 | one transaction seen from any one account: its balance moves by received minus charged, its nonce by one exactly for its own transfer |
| `LedgerLaws.BlockAccount` | blockchain/consensus/validator.go:616-696 | one accepted block seen from any one account, balance and nonces |
| `LedgerLaws.ChainNoncesCountUp` | blockchain/consensus/validator.go:672-682 | along every accepted chain each sender's transfers carry nonce + 1, nonce + 2, ... without gap or repeat |
| `LedgerLaws.NoReplay` | blockchain/consensus/validator.go:672-682 | no sender and nonce pair is applied twice on an accepted chain |
| `LedgerLaws.BlockIssuance` | blockchain/consensus/validator.go:627-646 | an accepted block mints at most its reward and the fees it burns |
| `LedgerLaws.ChainIssuance` | blockchain/consensus/validator.go:616-696 | along every accepted chain the supply grows by at most the rewards, plus 2^64 for every wrapped debit |
| `LedgerLaws.SupplyBound` | blockchain/core/chain_struct.go:116-230 | the supply after any number of reward years, for both copies and every fee share; on the core chain without the wrap term |
| `LedgerExamples.WrappingBlockAccepted` | blockchain/consensus/validator.go:676-690 | a concrete block whose transfer moves 2^64 - 1 with fee 1 passes the dry run |
| `LedgerExamples.ConservationFails` | blockchain/consensus/validator.go:676-690 | on that block the supply grows although nothing was minted for it |
| `LedgerExamples.CopiesDiffer` | blockchain/core/chain_struct.go:165-174 | under the shipped shares, a block in which the genesis address spends its new reward: the commit accepts it, the dry run finds the funds missing |
| `Validation.VerifyBatch` | internal/crypto/crypto.go:177-216 | chunk by chunk in place, every item gets the verdict of its own single verification; sizes that differ are refused |
| `Validation.Gather` | blockchain/consensus/validator.go:317-343 | what needs no signature check is settled, the rest is gathered under its own index with the batch's own message, in order, none left out |
| `Validation.CheckInBatch` | blockchain/consensus/validator.go:345-356 | every verdict of the batch goes back to the transaction it came from |
| `Validation.VerifyTransactions` | blockchain/consensus/validator.go:301-366 | either path reports the first transaction its own check refuses |
| `Validation.PathsAgreeIff` | blockchain/consensus/validator.go:301-366 | on a transfer with its fields in order the paths agree exactly when its signature is good for both messages or neither; on any other exactly when it is not good for the batch's |
| `Validation.FirstFailuresAgreeIff` | blockchain/consensus/validator.go:301-366 | the paths report the same index exactly when they agree on every transaction up to where either fails |
| `Validation.SumFees` | blockchain/consensus/validator.go:373-382 | the guarded fee sum is the exact sum, and is refused exactly when that leaves uint64 |
| `Validation.CheckChainIds` | blockchain/consensus/validator.go:279-286 | missing chain ids are filled in and the first foreign one is found |
| `Validation.ValidateCoinbaseEconomics` | blockchain/consensus/validator.go:368-399 | accepts exactly when the fee sum fits and the coinbase meets the economic rule of the dry run; BlockRule.ValidatedIff says what that rule demands |
| `Validation.ValidateTransactions` | blockchain/consensus/validator.go:270-299 | accepts exactly when coinbase, chain ids, signatures and economics are in order |
| `Validation.ValidateBlock` | blockchain/consensus/validator.go:113-159 | accepts exactly when header, transactions and the dry run on a copy accept; the given state is not written |
| `BlockRule.ValidatedIff` | blockchain/consensus/validator.go:113-159 | accepted if and only if the header is good, all chain ids are missing or this chain's, every transfer passes its path, the miner's address is valid, the coinbase pays the miner exactly the amount, the fees fit and, with a state, every transaction is fine there |
| `Validation.AppliedVerifies` | blockchain/consensus/validator.go:664-667 | a dry run or a commit that succeeds has verified every transfer one by one |
| `Validation.WithStateBothMessages` | blockchain/consensus/validator.go:113-159 | with a state the batch path accepts exactly what the single path accepts and whose every signature is also good for the batch's message |
| `Validation.PathShowsIff` | blockchain/consensus/validator.go:113-159 | with a state the choice of path shows exactly on blocks the single path accepts with some signature not good for the batch's message |
| `Validation.PathShowsWithoutStateIff` | blockchain/network/sync.go:1316-1326 | without a state it shows exactly where all signatures are good on one path and not on the other, all else being valid |
| `Validation.LargeBlocksRefused` | blockchain/consensus/validator.go:507-614 | if signatures bind their message and the hash with the height differs from the one without, no block over the threshold with a transfer is accepted with a state |
| `Validation.LargeBlocksNotCommitted` | blockchain/network/sync.go:1316-1326 | under the same two assumptions no such block is both accepted without a state and then committed |
| `ValidationExamples.OrdinaryBlockRefused` | blockchain/consensus/validator.go:322-356 | a block of eleven transactions that the single path and the dry run accept and the batch path refuses |
| `ValidationExamples.BadFieldAccepted` | blockchain/consensus/validator.go:322-356 | eleven transactions with empty transfers, well signed: without a state the batch path accepts and the single path refuses them |
| `Admission.NextNonce` | blockchain/api/tx_batch_handlers.go:263-277 | the scan ends on every pending set, at the first missing nonce, with the sum of the debits passed on uint64 |
| `Admission.FirstGapUnique` | blockchain/api/tx_batch_handlers.go:270-277 | there is one first gap |
| `Admission.DebitAhead` | blockchain/api/tx_batch_handlers.go:291-298 | the second scan adds up the debits ahead of a replacement or finds the gap |
| `Admission.Admit` | blockchain/api/tx_batch_handlers.go:261-308 | the decision on a new or replacing transaction, relative to the first gap in the sender's pending nonces; AdmissionRule.DecisionIff says when it is which |
| `AdmissionRule.IndexIs` | blockchain/api/tx_batch_handlers.go:265-268 | the map holds exactly the pending nonces, each with the last transaction that carries it |
| `AdmissionRule.RunCovers` | blockchain/api/tx_batch_handlers.go:270-284 | the machine's sum of the debits passed is what the pending list owes up to there, on uint64 |
| `AdmissionRule.DecisionIff` | blockchain/api/tx_batch_handlers.go:279-308 | told from the pending list: added if and only if the nonce is the first missing one, replacing if and only if it is pending with nothing missing ahead and a lower fee there, both only if the uint64 sum of the debits up to and with it is within the balance; and which refusal otherwise |
| `AdmissionRule.ReplacementPaysMore` | blockchain/api/tx_batch_handlers.go:304-306 | whatever is accepted at a pending nonce carries a strictly higher fee than what is pending there |
| `AdmissionRule.SomethingMissing` | blockchain/api/tx_batch_handlers.go:270-277 | every pending list has a first missing nonce |
| `Admission.PayableReplays` | blockchain/consensus/validator.go:672-682 | transfers a sender can pay for one after the other never meet the ledger's nonce or funds check |
| `Admission.ReplayedIsPayable` | blockchain/consensus/validator.go:672-682 | and transfers the ledger applies were payable |
| `Admission.PayableIff` | blockchain/consensus/validator.go:672-682 | payable means exactly: nonces in a row, and every prefix of the debits covered by the balance and what came back from transfers to oneself |
| `Admission.UnpayableFails` | blockchain/consensus/validator.go:672-682 | transfers that are not payable and have nothing else wrong are refused for a nonce or for funds |
| `Admission.ReplayableIff` | blockchain/api/tx_batch_handlers.go:279-308 | for an accepted transaction this is a condition a caller can check before submitting |
| `Admission.SafeIsReplayable` | blockchain/api/tx_batch_handlers.go:279-308 | a live nonce and a sum that does not wrap suffice for it |
| `Admission.AdmissionSoundIff` | blockchain/api/http.go:1497-1549 | for every sender, transfers to oneself included: the accepted transaction replays behind the counted ones without a nonce or funds error exactly under that condition; otherwise one of these two errors stops it, if nothing else does |
| `Admission.AdmittedReplaysIff` | blockchain/api/tx_batch_handlers.go:261-308 | the same for whatever the decision accepts on a list of pending transactions |
| `Admission.StaleReplacementAccepted` | blockchain/api/tx_batch_handlers.go:285-308 | a concrete replacement behind the account's nonce that is accepted |
| `Admission.WrappedSumAccepted` | blockchain/api/tx_batch_handlers.go:280-284 | from an empty pool, two transactions admitted one after the other whose second the ledger cannot fund, because the sum wraps |
| `Selection.CollectNonces` | blockchain/cmd/wrappers.go:51-62 | the pre-scan knows exactly the pending nonces of every sender |
| `Selection.HasIntermediate` | blockchain/cmd/wrappers.go:114-120 | whether some pending nonce lies between the expected and the given one |
| `Selection.Consider` | blockchain/cmd/wrappers.go:71-134 | the loop body's decision on one pool entry: pick, skip or evict; SelectionRule.ChoiceIff says when it is which |
| `Selection.SelectMempoolTxs` | blockchain/cmd/wrappers.go:40-152 | the two loops compute the selection that SelectionRule.SelectionExact and SelectionRule.SelectionUnique pin down |
| `SelectionRule.ChoiceIff` | blockchain/cmd/wrappers.go:71-134 | an entry is picked exactly if it is a verified transfer, next in its sender's count behind the picks so far and within the chain balance; evicted exactly if it is a verified transfer of a sender without a pick, above the chain's next nonce with nothing pending in between |
| `SelectionRule.SelectionExact` | blockchain/cmd/wrappers.go:40-152 | for every pool in every order, every state and limit, at every position: picked if and only if wanted, evicted if and only if stranded, as long as there is room, told from the entries and the state |
| `SelectionRule.SelectionUnique` | blockchain/cmd/wrappers.go:40-152 | no other choice of positions has this |
| `Selection.SelectionSound` | blockchain/cmd/wrappers.go:40-152 | for every pool order: picks are a subsequence within the limit, verified and affordable, each sender's nonces continue the chain's, and everything evicted lies behind a gap |
| `Selection.MineableSenderPicked` | blockchain/cmd/wrappers.go:67-143 | a selection with room left has a pick of every sender whose next transaction is in the pool and affordable |
| `Selection.EvictedSendersNotPicked` | blockchain/cmd/wrappers.go:96-129 | no sender has both an evicted and a picked transaction |
| `Selection.CountingNoncesReplay` | blockchain/consensus/validator.go:672-675 | transfers that continue every sender's nonce never meet the ledger's nonce check |
| `Selection.SelectionMinesCleanly` | blockchain/cmd/wrappers.go:40-152 | a block made of a coinbase and a selection is never refused for a nonce, by either copy of the rule |
| `Funding.FundedReplays` | blockchain/consensus/validator.go:672-690 | transactions whose every sender has, at each of their transfers, enough balance and receipts so far never meet the funds check |
| `Funding.ReplayedIsFunded` | blockchain/consensus/validator.go:672-690 | and transactions the ledger applies were funded so |
| `Funding.UnfundedFails` | blockchain/consensus/validator.go:672-690 | transactions not funded so, with nothing else wrong, are refused for funds |
| `Funding.AffordableIsFunded` | blockchain/cmd/wrappers.go:131-139 | nobody charged more in all than they have suffices |
| `Funding.SelectionFundedIff` | blockchain/cmd/wrappers.go:40-152 | a block made of a coinbase and a selection meets no funds error if funded, is funded if accepted, and is refused for funds if it is not funded and nothing else is wrong |
| `SelectionExamples.SelectionNotFunded` | blockchain/cmd/wrappers.go:131-142 | two transfers of one sender that the balance covers one at a time only: both are selected, and the block is refused for funds |
| `TokenBuckets.TokenBucket.RefillLocked` | blockchain/api/rate_limiter.go:254-265 | refill in place: by elapsed time, capped, never backwards |
| `TokenBuckets.TokenBucket.Allow` | blockchain/api/rate_limiter.go:222-233 | one token, granted exactly when the refilled bucket has one |
| `TokenBuckets.TokenBucket.AllowN` | blockchain/api/rate_limiter.go:236-251 | n tokens or none; non-positive and oversized requests are turned away untouched |
| `TokenBuckets.TokenBucket.CurrentTokens` | blockchain/api/rate_limiter.go:268-273 | reading refills and takes nothing |
| `TokenBuckets.TokenBucket.TimeUntilTokens` | blockchain/api/rate_limiter.go:298-316 | the reported wait, cut down to whole nanoseconds, and the refill it causes |
| `TokenBuckets.RunBounded` | blockchain/api/rate_limiter.go:203-316 | in every run the level stays between 0 and the capacity |
| `TokenBuckets.RateBound` | blockchain/api/rate_limiter.go:203-316 | in every run and every window of it at most capacity + rate * length tokens are granted |
| `TokenBuckets.WaitIsExact` | blockchain/api/rate_limiter.go:298-316 | after the reported wait a request within the limit and the capacity is granted if and only if the exact wait is a whole number of nanoseconds; one nanosecond later always; never sooner; any other request not at all |
| `TokenBuckets.ThirdIsCut` | blockchain/api/rate_limiter.go:308-315 | three tokens a second: after the reported 333333333 nanoseconds the request is still refused, one nanosecond later it is granted |
| `IPLimiter.NewIPRateLimiter` | blockchain/api/middleware.go:190-201 | a limiter for positive settings, none otherwise |
| `IPLimiter.IPRateLimiter.SweepLocked` | blockchain/api/middleware.go:247-259 | at most once a minute, removes exactly the clients idle for longer than ten minutes |
| `IPLimiter.IPRateLimiter.Allow` | blockchain/api/middleware.go:203-245 | one request: answer, wait in whole nanoseconds and new buckets, the sweep included |
| `IPLimiter.NamelessAreUnknown` | blockchain/api/middleware.go:207-209 | requests without an address are answered as the one client unknown, in every run |
| `IPLimiter.SweptIff` | blockchain/api/middleware.go:247-259 | a sweep is due a minute after the last and forgets exactly the clients not seen for ten minutes |
| `IPLimiter.RetryIsExact` | blockchain/api/middleware.go:231-245 | a refused client is allowed one nanosecond after the reported wait, at it exactly if nothing was cut off, and not before |
| `IPLimiter.RunSimulates` | blockchain/api/middleware.go:203-259 | a sweeping and a never-sweeping limiter answer every run alike when idle buckets refill within their lifetime |
| `IPLimiter.ClientRateBound` | blockchain/api/middleware.go:203-245 | in every window of every run from a new limiter, whatever other clients do, a client gets at most burst + rps * length requests, if idle buckets refill within their lifetime |
| `IPLimiter.ProbeAnswers` | blockchain/api/middleware.go:247-259 | the answers of a run that drains, waits and bursts again, with the sweep and without it |
| `IPLimiter.SweepShows` | blockchain/api/middleware.go:247-259 | where buckets do not refill in time that run tells the two apart |
| `IPLimiter.SweepUnobservableIff` | blockchain/api/middleware.go:247-259 | sweeping is unobservable in all runs if and only if 600 * rps >= burst |
| `IPLimiter.ProbeExceedsRate` | blockchain/api/middleware.go:247-259 | otherwise a run in which a swept client gets its burst twice exceeds the rate |
| `IPLimiter.ClientRateBoundIff` | blockchain/api/middleware.go:203-259 | the rate is kept in every window of every run if and only if 600 * rps >= burst |
| `Shares.BasesFitPool` | blockchain/contracts/integrity_rewards_contract.go:283-298 | base shares never exceed the pool, wrapped or not |
| `Shares.WrapLoses` | blockchain/contracts/integrity_rewards_contract.go:291-293 | a wrapped product leaves at least 2^64 / total of the pool undistributed by the base shares |
| `Shares.RemainderBelowCount` | blockchain/contracts/integrity_rewards_contract.go:283-301 | without a wrapped product the remainder is below the number of weighted entries; with one, and up to 2^28 entries, it is not |
| `Shares.MapHoldsRest` | blockchain/contracts/integrity_rewards_contract.go:292-292 | the rewards map holds everything but what a shared address overwrote |
| `Shares.ToppedUpHolds` | blockchain/contracts/integrity_rewards_contract.go:292-317 | base shares under their addresses and the remainder on top hold everything but what was overwritten |
| `Shares.LostNothingIff` | blockchain/contracts/integrity_rewards_contract.go:292-292 | nothing is overwritten exactly when no positive amount has its address used again |
| `Rewards.SharesArePool` | blockchain/contracts/integrity_rewards_contract.go:229-349 | the shares of all nodes together are the pool, to the last token |
| `Rewards.PayoutTallies` | blockchain/contracts/integrity_rewards_contract.go:296-318 | every node's running total stays what it was paid in all, modulo 2^64 |
| `Rewards.WeightIs` | blockchain/contracts/integrity_rewards_contract.go:246-269 | active nodes with a score of 60 or more count, with their score, and no others |
| `Rewards.PaidNode` | blockchain/contracts/integrity_rewards_contract.go:283-319 | such a node gets score * pool mod 2^64 divided by the total weight, the top one the remainder as well, and its height is noted; every other node is untouched |
| `Rewards.ExpectedIsLowerBound` | blockchain/contracts/integrity_rewards_contract.go:490-522 | the estimate never exceeds the share paid and is exact for every node but the top one |
| `Rewards.CollectQualified` | blockchain/contracts/integrity_rewards_contract.go:246-251 | for any map order, lists every qualified node once |
| `Rewards.SumWeights` | blockchain/contracts/integrity_rewards_contract.go:261-269 | the total weight does not depend on the order |
| `Rewards.PayBases` | blockchain/contracts/integrity_rewards_contract.go:283-298 | the first pass: base shares on the nodes, the rewards map and the sum given out |
| `Rewards.FindTop` | blockchain/contracts/integrity_rewards_contract.go:304-313 | finds a node of the highest score |
| `Rewards.Settle` | blockchain/contracts/integrity_rewards_contract.go:229-349 | collect, weigh and pay together are a distribution of the whole pool, for any order |
| `Rewards.RewardsMapHolds` | blockchain/contracts/integrity_rewards_contract.go:283-319 | the rewards map of a distribution holds the pool less what a shared address overwrote |
| `Rewards.PaysPoolIff` | blockchain/contracts/integrity_rewards_contract.go:229-349 | the rewards map pays the pool in every order of the nodes if and only if no two qualified nodes with a base share have the same address |
| `Rewards.SharedAddressLoses` | blockchain/contracts/integrity_rewards_contract.go:283-319 | any distribution of 100 to two nodes of one address and score, in either order, pays out 50 in the map |
| `Rewards.RemainderBelowNodes` | blockchain/contracts/integrity_rewards_contract.go:283-301 | without a wrapped product of score and pool the remainder is below the number of qualified nodes; with one, and up to 2^28 nodes, it is not |
| `Rewards.WrappedProductLeavesAll` | blockchain/contracts/integrity_rewards_contract.go:291-301 | one node and a pool of 2^63: the product wraps to 0 and the remainder is the whole pool |
| `Rewards.TotalsAgreeIff` | blockchain/contracts/integrity_rewards_contract.go:296-323 | the nodes' totals add up to TotalDistributed if and only if their sum fits into uint64 |
| `Rewards.TotalsDisagree` | blockchain/contracts/integrity_rewards_contract.go:296-323 | two nodes paid 2^63 each: their totals make 2^64 and TotalDistributed is 0 |
| `Rewards.IntegrityRewardContract.AddToRewardPool` | blockchain/contracts/integrity_rewards_contract.go:157-170 | the pool grows by the share, saturating; the contract's invariant is kept |
| `Rewards.IntegrityRewardContract.RegisterNode` | blockchain/contracts/integrity_rewards_contract.go:174-203 | a new node starts unpaid; a known one is refused; the invariant is kept |
| `Rewards.IntegrityRewardContract.UpdateNodeScore` | blockchain/contracts/integrity_rewards_contract.go:208-223 | only score and status of that node change; the invariant is kept |
| `Rewards.IntegrityRewardContract.SetDistributionInterval` | blockchain/contracts/integrity_rewards_contract.go:526-543 | the next height follows the new interval; the invariant is kept |
| `Rewards.IntegrityRewardContract.CalculateExpectedReward` | blockchain/contracts/integrity_rewards_contract.go:490-522 | the estimate, for any map order |
| `Rewards.IntegrityRewardContract.DistributeRewards` | blockchain/contracts/integrity_rewards_contract.go:229-349 | too early nothing changes; otherwise the whole pool is distributed, booked and recorded in the history, and the next height set; the invariant is kept |
| `Governance.CommunityFundGovernanceContract.AddFunds` | blockchain/contracts/community_fund_governance.go:226-236 | the saturating addition, as one step of the contract |
| `Governance.CommunityFundGovernanceContract.CreateProposal` | blockchain/contracts/community_fund_governance.go:241-305 | a new active proposal, or the first refusal that applies |
| `Governance.CommunityFundGovernanceContract.CastVote` | blockchain/contracts/community_fund_governance.go:310-363 | a vote is counted once per voter while the vote is open; a late one lets the proposal expire |
| `Governance.CommunityFundGovernanceContract.FinalizeVoting` | blockchain/contracts/community_fund_governance.go:368-413 | after the deadline the tallies decide, on uint64; GovernanceRule.StatusIff and GovernanceRule.ApprovedIsPaid say how |
| `Governance.CommunityFundGovernanceContract.ExecuteProposal` | blockchain/contracts/community_fund_governance.go:418-447 | a passed proposal is paid once, if the fund covers it |
| `Governance.CommunityFundGovernanceContract.SetTotalVotingPower` | blockchain/contracts/community_fund_governance.go:555-559 | sets the voting power and nothing else |
| `Governance.RunTallied` | blockchain/contracts/community_fund_governance.go:310-363 | in every run each tally is the summed power of the recorded voters of its side, modulo 2^64 |
| `Governance.TallyExactIff` | blockchain/contracts/community_fund_governance.go:354-360 | a tally is the exact sum if and only if the sum fits into uint64 |
| `Governance.TallyWraps` | blockchain/contracts/community_fund_governance.go:354-360 | votes of 2^64 - 1 and 1 for a proposal leave a tally of 0 |
| `Governance.RunEvolves` | blockchain/contracts/community_fund_governance.go:310-447 | from any state of a run to any later one: terms fixed, status only forward, votes only added and only while active |
| `Governance.SettledWasApproved` | blockchain/contracts/community_fund_governance.go:368-447 | in every run, what ends passed or executed was counted after its deadline and approved on the tallies it still has |
| `Governance.SettledMetTheRule` | blockchain/contracts/community_fund_governance.go:368-447 | and met the threshold then if the votes' sum did not wrap, and the quorum if its product did not either |
| `GovernanceRule.CountIs` | blockchain/contracts/community_fund_governance.go:388-410 | the count passes a proposal, or divides by zero, exactly under conditions on the votes and the voting power, for all of their values |
| `GovernanceRule.StatusIff` | blockchain/contracts/community_fund_governance.go:310-447 | in every run, for an active proposal: it ends passed or executed if and only if some count after its deadline carried it, rejected if and only if some such count did not, expired if and only if a vote came too late, executed if and only if an execution found it passed and covered |
| `GovernanceRule.ApprovedIsPaid` | blockchain/contracts/community_fund_governance.go:368-447 | after every run, with the count's numbers within uint64: a count past the deadline passes the proposal if and only if the rule approves it and rejects it otherwise, and execution then pays a passed one the fund covers, and changes nothing else |
| `GovernanceRule.RecordedIff` | blockchain/contracts/community_fund_governance.go:310-363 | in every run a vote is on record if and only if some event cast it: the voter's first, on an active proposal, in time and with power |
| `GovernanceRule.ProposedIff` | blockchain/contracts/community_fund_governance.go:241-305 | a new proposal has its terms, a week to vote and no votes, if and only if the deposit is 1000000000 or more and amount and recipient are given |
| `GovernanceRule.PowerIsLastSet` | blockchain/contracts/community_fund_governance.go:555-559 | in every run the voting power is the one set last |
| `GovernanceRule.DoneIff` | blockchain/contracts/community_fund_governance.go:226-447 | the caller is told a call is done if and only if it had its effect |
| `GovernanceRule.ReasonIsTrue` | blockchain/contracts/community_fund_governance.go:241-447 | and a refusal gives a reason that is true |
| `Governance.FundConserved` | blockchain/contracts/community_fund_governance.go:226-447 | in every run: in the fund + paid out + dropped by saturation = what was there + what came in |
| `Governance.FundBalanceIff` | blockchain/contracts/community_fund_governance.go:226-447 | from a new contract the balance is funds added minus amounts executed if and only if no addition saturated |
| `Governance.FundSaturates` | blockchain/contracts/community_fund_governance.go:226-236 | funds of 2^64 - 1 and 1: the second addition is dropped |
| `Governance.VerdictIff` | blockchain/contracts/community_fund_governance.go:388-410 | while the votes' sum fits: approved exactly under the threshold, the machine's quorum and a hundredfold that fits; never a crash; for every voting power |
| `Governance.WrappedVerdictIff` | blockchain/contracts/community_fund_governance.go:388-410 | when the sum wraps: exactly when what is left of it crashes the count or approves |
| `Governance.VerdictRightIff` | blockchain/contracts/community_fund_governance.go:388-410 | while the sum fits the verdict is the rule's, except exactly for an approval whose hundredfold wraps and a quorum that was wrapped away |
| `Governance.WrappedVerdictRightIff` | blockchain/contracts/community_fund_governance.go:388-410 | when it wraps, the exact cases in which the verdict is still the rule's |
| `Governance.WrappedVotes` | blockchain/contracts/community_fund_governance.go:388-410 | concrete wrapped tallies: an approval against 2^64 - 1 and a division by zero |
| `Masking.XorInverse` | blockchain/api/ws.go:537-539 | exclusive or with the same byte twice gives the byte back |
| `Masking.XorIsBitwise` | blockchain/api/ws.go:537-539 | each bit of the result is set exactly where the bits differ |
| `Masking.MaskTwice` | blockchain/api/ws.go:537-539 | masking twice with one mask gives the payload back |
| `Masking.Unmask` | blockchain/api/ws.go:537-539 | the masking loop in place |
| `Frames.BigEndianRoundTrip` | blockchain/api/ws.go:554-563 | a number written big-endian into enough bytes reads back as itself |
| `Frames.WriteFrame` | blockchain/api/ws.go:544-574 | header and payload as specified; opcode 0 is refused |
| `Frames.Reader.ReadFull` | blockchain/api/ws.go:496-500 | all bytes asked for, or the end of the stream |
| `Frames.Reader.ReadLength` | blockchain/api/ws.go:508-526 | the three length forms, with the limit on the 64-bit one |
| `Frames.Reader.ReadPayload` | blockchain/api/ws.go:528-540 | mask and payload, unmasked in place |
| `Frames.Reader.ReadFrame` | blockchain/api/ws.go:496-542 | one frame off the stream, or the first failure |
| `Frames.SentIsWritten` | blockchain/api/ws.go:544-574 | what a client sends is the server's own encoding with the mask bit set, the mask inserted and the payload masked |
| `Frames.HeaderBytes` | blockchain/api/ws.go:544-574 | the header byte by byte: 0x80 and the opcode, then the length in one byte, or 0x7E and two bytes, or 0x7F and eight, highest first |
| `Frames.ReadIff` | blockchain/api/ws.go:496-542 | any bytes with a masked header of n bytes payload: a frame if and only if all of it is there and a 64-bit n is at most 1048576; its opcode, and every payload byte laid over its mask byte |
| `Frames.UnmaskedRefused` | blockchain/api/ws.go:504-507 | a frame that is not masked, such as the server's own, is refused |
| `Frames.AnyForm` | blockchain/api/ws.go:508-526 | a length spelled in a longer form than needed is read all the same, up to the limit |
| `Frames.RoundTrip` | blockchain/api/ws.go:496-574 | reading what a client sent gives opcode and payload back and stops right behind the frame if and only if the payload is within the limit; else it is refused as too large |
| `Frames.CutFrame` | blockchain/api/ws.go:496-542 | no proper beginning of a frame is taken for a frame |
| `Frames.StreamRoundTrip` | blockchain/api/ws.go:496-574 | a stream of any messages within the limit, under any masks, reads back message by message with nothing left over |
| `Frames.CutStream` | blockchain/api/ws.go:496-542 | however a stream of messages is cut off, the reader delivers exactly the messages that arrived whole, then the end |
| `Frames.OversizeStops` | blockchain/api/ws.go:521-524 | a message over the limit ends the reading: everything before it is delivered, nothing after it |
| `Frames.ShortestForm` | blockchain/api/ws.go:550-564 | no frame the reader accepts with the same payload is shorter than the one written |
| `Election.WeightedSelectKey` | blockchain/core/candidate_pool.go:604-617 | the key loop masks the hash with the source's mask |
| `Election.KeyBytes` | blockchain/core/candidate_pool.go:604-627 | each byte of the key is the hash byte laid over one of the first four bytes of the source's digest, and the hash byte itself without a source |
| `Election.KeyDeterminesHash` | blockchain/core/candidate_pool.go:604-617 | for one source, keys are equal exactly when hashes are |
| `Election.CompareKeys` | blockchain/core/candidate_pool.go:403-416 | the comparing loop is byte order on the common part, then timestamp |
| `Election.KeyBeforeIff` | blockchain/core/candidate_pool.go:403-416 | before means: lower in the first byte that differs, or no such byte as far as both go and an earlier timestamp |
| `Election.OrderIsStrictWeak` | blockchain/core/candidate_pool.go:390-417 | over hashes of one length the comparator is a strict weak order |
| `Election.SeparatesIffNoTies` | blockchain/core/candidate_pool.go:390-417 | it leaves two candidates undecided exactly when key and timestamp agree |
| `Election.LengthsCanCycle` | blockchain/core/candidate_pool.go:406-416 | over hashes of different lengths three candidates of any sources beat each other in a circle |
| `CandidateExamples.LengthsChangeWinner` | blockchain/core/candidate_pool.go:390-419 | hashes of different lengths from three sources: the same three submissions to a new pool in two orders elect two winners |
| `CandidateExamples.TieChangesWinner` | blockchain/core/candidate_pool.go:390-419 | for any key and time and any two sources whose hashes differ but tie: of the two submissions to a new pool whoever arrives first wins |
| `Election.OrderOfArrivalIrrelevant` | blockchain/core/candidate_pool.go:390-419 | any two arrival orders of candidates without ties give the same ranking, first to last |
| `Election.WinnerFixedIff` | blockchain/core/candidate_pool.go:390-419 | for hashes of any lengths and different candidates: every order of arrival gives the same winner if and only if some candidate is before every other one |
| `Election.AnySortWinnerIff` | blockchain/core/candidate_pool.go:390-419 | where the comparator is a strict weak order, as for hashes of one length: every sorting algorithm and order of arrival give the same winner if and only if the least candidate is unique |
| `Election.NoTiesOneLeast` | blockchain/core/candidate_pool.go:390-419 | without ties it is unique |
| `Sorting.SortSorts` | blockchain/core/candidate_pool.go:390-417 | sorting by a strict weak order gives a sorted permutation |
| `Sorting.SortedUnique` | blockchain/consensus/forks.go:169-169 | without ties there is one sorted arrangement |
| `Sorting.BestIsFirst` | blockchain/core/candidate_pool.go:390-419 | an item before every other one is sorted to the front whatever the comparator does with the rest |
| `Sorting.SecondStaysBehind` | blockchain/core/candidate_pool.go:390-419 | an item that arrives second and is not before the first never gets to the front |
| `Candidates.FindClash` | blockchain/core/candidate_pool.go:155-164 | the scan reports the first clash of hash or source |
| `Candidates.ClashIff` | blockchain/core/candidate_pool.go:155-164 | no clash means hash and source differ from every candidate's, and the other way round |
| `Candidates.OpenPool` | blockchain/core/candidate_pool.go:170-200 | a new pool with its deadline |
| `Candidates.CandidatePool.SubmitCandidate` | blockchain/core/candidate_pool.go:108-234 | the checks in order, then one candidate more in the pool of its height, and nothing else |
| `Candidates.AddedIff` | blockchain/core/candidate_pool.go:108-234 | accepted if and only if the pool is running, the hash not empty, the block not too late and the pool of its height, where there is one, open, in time, with room and without its hash and source; it then stands last in that pool, a new one lasting what mining left of the interval within the limits; otherwise nothing changes |
| `Candidates.RefusalIsTrue` | blockchain/core/candidate_pool.go:108-234 | a refusal gives a reason that is true |
| `Candidates.CandidatePool.SelectBest` | blockchain/core/candidate_pool.go:361-451 | the pool is ranked and removed |
| `Candidates.CandidatePool.StopAll` | blockchain/core/candidate_pool.go:565-597 | all pools closed, no submission accepted afterwards |
| `Candidates.StopIsFinal` | blockchain/core/candidate_pool.go:565-597 | after a stop no run opens a pool or adds a candidate |
| `Candidates.RunKeepsSound` | blockchain/core/candidate_pool.go:108-234 | in every run each pool holds at most the allowed number, at least one, with distinct hashes and sources, and its window lies within the limits |
| `Candidates.RunConserves` | blockchain/core/candidate_pool.go:108-451 | in every run, at every height, each accepted candidate is still held or has been ranked, exactly as often as it was accepted |
| `Candidates.SameCandidatesSameRanking` | blockchain/core/candidate_pool.go:361-419 | two nodes that hold the same candidates elect the same ranking if none tie |
| `Candidates.PoolWinnerFixedIff` | blockchain/core/candidate_pool.go:108-419 | in every pool of every run the winner is fixed for all orders of arrival if and only if one candidate beats all others |
| `TimeRules.MedianTimePast` | blockchain/config/time_rules.go:100-130 | the loop and the sort return the middle of the window's stamps in ascending order |
| `TimeRules.MedianIsMiddle` | blockchain/config/time_rules.go:127-129 | which is the middle of any sorted arrangement of them |
| `TimeRules.ValidateBlockTime` | blockchain/config/time_rules.go:68-97 | the three rejections in order, with the drift added on int64 |
| `TimeRules.MedianOverWindow` | blockchain/config/time_rules.go:100-130 | the median is the middle of any sorted arrangement of the stamps in the window: eleven blocks when unset, one more than an even setting |
| `TimeRules.VerdictIff` | blockchain/config/time_rules.go:68-97 | accepted if and only if later than the parent and the median and within the drift limit, the one for heights below the threshold or the one from it on; and which rejection otherwise |
| `TimeRules.NothingToJudge` | blockchain/config/time_rules.go:69-71 | the first block and positions outside the path are accepted |
| `TimeRules.TimestampsIncrease` | blockchain/config/time_rules.go:75-78 | on an accepted path timestamps strictly increase between any two blocks |
| `TimeRules.MedianUnsorted` | blockchain/config/time_rules.go:100-130 | there the median is the stamp in the middle of the window, without sorting |
| `TimeRules.MedianNeverDecreases` | blockchain/config/time_rules.go:100-130 | median-time-past never decreases along an accepted path |
| `TimeRules.NeverTooOld` | blockchain/config/time_rules.go:80-84 | behind increasing stamps the median check never rejects on its own |
| `TimeRules.GrowthBound` | blockchain/config/time_rules.go:86-94 | the i-th stamp exceeds the first by at most one drift for each median in between |
| `TimeRules.HopsBound` | blockchain/config/time_rules.go:100-130 | and there are at most i / half + half of these, half being half the window |
| `TimeRules.DriftPerBlock` | blockchain/config/time_rules.go:86-94 | in particular the i-th stamp is at most the first plus i drifts |
| `BatchWorkers.NextSound` | blockchain/api/tx_batch_handlers.go:186-229 | every step of every goroutine keeps the invariant: no job in two places, no call but one per job, no result crossed |
| `BatchWorkers.QueueHasRoom` | blockchain/api/tx_batch_handlers.go:216-218 | the sending loop never waits for room in the channel |
| `BatchWorkers.ResultsHaveRoom` | blockchain/api/tx_batch_handlers.go:208-212 | nor does a worker with a result |
| `BatchWorkers.RunSound` | blockchain/api/tx_batch_handlers.go:186-229 | every interleaving keeps the invariant and counts down by one a step |
| `BatchWorkers.SomeStep` | blockchain/api/tx_batch_handlers.go:186-229 | short of the end some goroutine can go on: no deadlock |
| `BatchWorkers.RunCompletes` | blockchain/api/tx_batch_handlers.go:186-229 | all complete interleavings have the same length, 5n + min(4, n) + 3, and a run is finished exactly at that length |
| `BatchWorkers.CompleteRunServes` | blockchain/api/tx_batch_handlers.go:186-229 | under every interleaving each job was submitted exactly once, with its own transaction, and its slot holds that call's answer |
| `BatchWorkers.FourAtATime` | blockchain/api/tx_batch_handlers.go:198-202 | in every run there are as many workers as jobs, and never more than four |
| `BatchHandler.ParseAll` | blockchain/api/tx_batch_handlers.go:117-138 | one slot per entry, with its error if it does not parse |
| `BatchHandler.FilterValid` | blockchain/api/tx_batch_handlers.go:140-147 | jobs and positions of the readable entries |
| `BatchHandler.ValidAtExact` | blockchain/api/tx_batch_handlers.go:140-147 | in order, each once, none left out |
| `BatchHandler.Scatter` | blockchain/api/tx_batch_handlers.go:149-154 | results go back to the entries their jobs came from and touch no other |
| `BatchHandler.Tally` | blockchain/api/tx_batch_handlers.go:156-169 | the two lists hold exactly the accepted and the rejected entries, in request order |
| `BatchHandler.FailuresExact` | blockchain/api/tx_batch_handlers.go:156-169 | the failures are the rejected entries, each once, under its own index and in order |
| `BatchHandler.IdsExact` | blockchain/api/tx_batch_handlers.go:156-169 | the successes are the accepted entries' identifiers, each behind as many as were accepted before it |
| `BatchHandler.EachCountedOnce` | blockchain/api/tx_batch_handlers.go:156-180 | successes and failures together are the number of entries |
| `BatchHandler.HandleBatchSubmit` | blockchain/api/tx_batch_handlers.go:102-181 | for every interleaving and every answer: each entry is answered once, by its own parse error or the one call on its own transaction, and the counts add up; batches of 0 or over 50 are refused whole |
| `Tips.ParentsOf` | blockchain/consensus/forks.go:157-161 | for any map order, exactly the hashes some block names as its parent |
| `Tips.HexDigits` | blockchain/consensus/forks.go:157-161 | two lower-case digits for every byte, the upper half first |
| `Tips.HexInjective` | blockchain/consensus/forks.go:157-161 | so a name belongs to one hash only |
| `Tips.OneParent` | blockchain/consensus/forks.go:157-161 | a block without a previous hash is nobody's child, and every other one the child of exactly one hash |
| `Tips.GetKnownTipsFromBlocks` | blockchain/consensus/forks.go:153-171 | exactly the childless hashes, each once, sorted, for any map order |
| `Tips.ListUnique` | blockchain/consensus/forks.go:153-171 | there is one such list, so the map order never shows |
| `Tips.EveryBlockHasTip` | blockchain/consensus/forks.go:153-171 | where heights grow from parent to child every block has a tip among its descendants or itself |
| `Tips.SomeTip` | blockchain/consensus/forks.go:153-171 | and there is a tip exactly when there is a block |

## Left out

- HTTP, JSON, hex and gossip around the modelled calls; decoding a batch entry is a parameter, and so are clocks,
  hashes, signatures, address formats and the header checks before `validateTransactions`.
- Proof of work, difficulty, fork choice, storage, peers, mining: not part of this model.
- Admission stops at the decision; signature verification, the auditor call and the pool's own insertion are not modelled.
- Selection: the pool entries' order is arbitrary, fees are not compared.
- Floating point in both rate limiters is arithmetic over reals; reported waits are cut to nanoseconds as in the source,
  but waits beyond 2^63 nanoseconds do not overflow.
- TokenBuckets: `Reset` and the plain getters would only add easy members.
- Locks: each locked method is one atomic step; only the batch workers are interleaved.
- The parallel branch inside `verifyBatchInternal` is never taken, because chunks have ten items at most; `VerifyBatch`
  models the sequential one.
- Validation.ValidateBlock: chain ids are filled in on a copy of the block, while the source writes them into the block.
- Rewards: registration times and the node counter; the branch for a total weight of 0, which no qualified node allows.
- Rewards.IntegrityRewardContract.DistributeRewards: requires fewer nodes than 2^56, so that the weights' sum fits.
- Governance: proposal and execution counters, titles and descriptions, deposit refunds (a comment in the source);
  proposal identifiers are brought by the caller and assumed new where a lemma says so.
- Rewards.RemainderBelowNodes: the reverse half is for at most 2^28 nodes; beyond, 2^64 divided by the total weight, which
  is what one wrapped product loses at least, need not reach their number.
- Shares.RemainderBelowCount: the same bound for the reverse half.
- Frames: fragmentation bits are ignored as in the source; control frames, the handshake and write errors.
- Election.WinnerFixedIff: `sort.Slice` is insertion sort here, which is what it is for up to twelve elements;
  `Election.AnySortWinnerIff` is about every sorting algorithm, where the comparator is a strict weak order.
- Candidates: `SubmitCandidateWithDeadline`, timers, logging and the blocks added to the chain after an election; nil
  blocks are refused on submission and have no counterpart; a clash is detected on hashes, not on their hex form.
- TimeRules.GrowthBound: drift limits must not be negative, as `Validate` demands.
- Uncle rewards, the binary form of the policy and the policy's other checks.
- Error texts; errors are told apart by kind only.
