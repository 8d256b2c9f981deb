/**
 When a block is accepted, told from the block and the state before it: no running state, only sums over the
 transactions that come first.
 */
module BlockRule {
  import opened Machine
  import opened Monetary
  import opened Ledger
  import opened LedgerLaws
  import opened Funding
  import opened Validation

  // ----- one transaction -----

  /** The k-th transaction has the form its kind demands. */
  predicate WellFormed(c: Crypto, tx: Tx, height: uint64, first: bool) {
    && tx.chainId != 0 && tx.amount > 0 && c.validAddress(tx.to)
    && match tx.kind
       case Coinbase => first && tx.fromPubKey == [] && tx.signature == [] && tx.nonce == 0 && tx.fee == 0
       case Transfer =>
         && tx.nonce > 0 && |tx.fromPubKey| == 32 && |tx.signature| == 64
         && var message := c.signingHash(tx, height);
            message.Some? && c.verify(tx.fromPubKey, message.value, tx.signature)
       case Other => false
  }

  /** What an account has before the k-th transaction. */
  function BalanceAt(c: Crypto, state: State, txs: seq<Tx>, k: nat, a: Address): int
    requires k <= |txs|
  {
    Get(state, a).balance + Received(txs[..k], a) - Spent(c, txs[..k], a)
  }

  /** The nonce its sender has used last before the k-th transaction. */
  function NonceAt(c: Crypto, state: State, txs: seq<Tx>, k: nat, a: Address): int
    requires k <= |txs|
  {
    Get(state, a).nonce + |NoncesOf(c, txs[..k], a)|
  }

  /** A transfer carries its sender's next nonce, and what it is charged is there; the commit lets no charge wrap. */
  predicate Payable(copy: Copy, tx: Tx, nonce: int, balance: int) {
    && tx.nonce == nonce + 1
    && (tx.amount + tx.fee) % TWO64 <= balance
    && (copy.CoreChain? ==> tx.amount + tx.fee < TWO64)
  }

  /** Given its sender's nonce and balance before it, and what its recipient then has. */
  predicate Fine(c: Crypto, copy: Copy, height: uint64, tx: Tx, first: bool, nonce: int, balance: int, filled: int) {
    WellFormed(c, tx, height, first) && (tx.kind == Transfer ==> Payable(copy, tx, nonce, balance)) && filled < TWO64
  }

  predicate FineAt(c: Crypto, copy: Copy, height: uint64, state: State, txs: seq<Tx>, first: bool, k: nat)
    requires k < |txs|
  {
    var a := c.addressOf(txs[k].fromPubKey);
    Fine(c, copy, height, txs[k], first && k == 0,
         NonceAt(c, state, txs, k, a), BalanceAt(c, state, txs, k, a), BalanceAt(c, state, txs, k + 1, txs[k].to))
  }

  predicate AllFine(c: Crypto, copy: Copy, height: uint64, state: State, txs: seq<Tx>, first: bool) {
    forall k :: 0 <= k < |txs| ==> FineAt(c, copy, height, state, txs, first, k)
  }

  /** The first rule a transaction breaks. */
  function Fault(c: Crypto, copy: Copy, height: uint64, tx: Tx, first: bool, nonce: int, balance: int, filled: int)
    : Option<Error>
  {
    if tx.kind == Other then Some(UnknownKind)
    else if tx.kind == Coinbase && !first then Some(CoinbaseNotFirst)
    else if !WellFormed(c, tx, height, first) then Some(Unverified)
    else if tx.kind == Transfer && !Payable(copy, tx, nonce, balance) then
      if tx.nonce != nonce + 1 then Some(BadNonce)
      else if copy.CoreChain? && tx.amount + tx.fee >= TWO64 then Some(AmountFeeOverflow)
      else Some(InsufficientFunds)
    else if filled >= TWO64 then Some(BalanceOverflow)
    else None
  }

  function FaultAt(c: Crypto, copy: Copy, height: uint64, state: State, txs: seq<Tx>, first: bool, k: nat): Option<Error>
    requires k < |txs|
  {
    var a := c.addressOf(txs[k].fromPubKey);
    Fault(c, copy, height, txs[k], first && k == 0,
          NonceAt(c, state, txs, k, a), BalanceAt(c, state, txs, k, a), BalanceAt(c, state, txs, k + 1, txs[k].to))
  }

  lemma WellFormedIff(c: Crypto, tx: Tx, height: uint64, first: bool)
    ensures WellFormed(c, tx, height, first) <==> VerifyForConsensus(c, tx, height) && (tx.kind == Coinbase ==> first)
  {
  }

  lemma DebitIsModulo(tx: Tx)
    ensures Debit(tx) == (tx.amount + tx.fee) % TWO64
  {
  }

  lemma FirstBalances(c: Crypto, state: State, txs: seq<Tx>, a: Address)
    requires txs != []
    ensures BalanceAt(c, state, txs, 0, a) == Get(state, a).balance && NonceAt(c, state, txs, 0, a) == Get(state, a).nonce
    ensures BalanceAt(c, state, txs, 1, a) == BalanceAfter(c, state, txs[0], a)
  {
    assert txs[..0] == [] && txs[..1] == [txs[0]] && [txs[0]][1..] == [];
  }

  /** What an account has after one transaction. */
  function BalanceAfter(c: Crypto, state: State, tx: Tx, a: Address): int {
    Get(state, a).balance
      + (if tx.kind != Other && tx.to == a then tx.amount else 0)
      - (if FromAddress(c, tx) == Some(a) then Debit(tx) else 0)
  }

  /** One transaction has exactly the error of the first rule it breaks. */
  lemma TxFault(c: Crypto, copy: Copy, height: uint64, state: State, tx: Tx, first: bool)
    ensures
      var acct := Get(state, c.addressOf(tx.fromPubKey));
      Fault(c, copy, height, tx, first, acct.nonce, acct.balance, BalanceAfter(c, state, tx, tx.to))
      == ApplyTx(c, copy, height, state, tx, first).error
  {
    WellFormedIff(c, tx, height, first);
    DebitIsModulo(tx);
  }

  lemma FineIff(c: Crypto, copy: Copy, height: uint64, tx: Tx, first: bool, nonce: int, balance: int, filled: int)
    ensures Fine(c, copy, height, tx, first, nonce, balance, filled)
       <==> Fault(c, copy, height, tx, first, nonce, balance, filled).None?
  {
  }

  /** A refused transaction leaves the state alone, but for a transfer whose credit overflows: its debit stays written. */
  lemma RefusedLeaves(c: Crypto, copy: Copy, height: uint64, state: State, tx: Tx, first: bool)
    requires ApplyTx(c, copy, height, state, tx, first).error.Some?
    ensures
      var o, a := ApplyTx(c, copy, height, state, tx, first), c.addressOf(tx.fromPubKey);
      o.state == if tx.kind == Transfer && o.error == Some(BalanceOverflow)
                 then state[a := Account((Get(state, a).balance - (tx.amount + tx.fee)) % TWO64, tx.nonce)] else state
  {
    if tx.kind == Transfer && ApplyTx(c, copy, height, state, tx, first).error == Some(BalanceOverflow) {
      ChargeIsModulo(Get(state, c.addressOf(tx.fromPubKey)).balance, tx);
    }
  }

  lemma ChargeIsModulo(balance: uint64, tx: Tx)
    requires Debit(tx) <= balance
    ensures balance - Debit(tx) == (balance - (tx.amount + tx.fee)) % TWO64
  {
  }

  /** The first transaction is applied exactly when it is fine. */
  lemma FirstFine(c: Crypto, copy: Copy, height: uint64, state: State, txs: seq<Tx>, first: bool)
    requires txs != []
    ensures FaultAt(c, copy, height, state, txs, first, 0) == ApplyTx(c, copy, height, state, txs[0], first).error
    ensures FineAt(c, copy, height, state, txs, first, 0) <==> ApplyTx(c, copy, height, state, txs[0], first).error.None?
  {
    var tx, a := txs[0], c.addressOf(txs[0].fromPubKey);
    FirstBalances(c, state, txs, tx.to);
    FirstBalances(c, state, txs, a);
    TxFault(c, copy, height, state, tx, first);
    FineIff(c, copy, height, tx, first, Get(state, a).nonce, Get(state, a).balance, BalanceAfter(c, state, tx, tx.to));
  }

  /** What comes later is as fine before the first transaction as it is behind it. */
  lemma LaterFine(c: Crypto, copy: Copy, height: uint64, state: State, txs: seq<Tx>, first: bool, k: nat)
    requires k + 1 < |txs| && ApplyTx(c, copy, height, state, txs[0], first).error.None?
    ensures
      var after := ApplyTx(c, copy, height, state, txs[0], first).state;
      && FineAt(c, copy, height, state, txs, first, k + 1) == FineAt(c, copy, height, after, txs[1..], false, k)
      && FaultAt(c, copy, height, state, txs, first, k + 1) == FaultAt(c, copy, height, after, txs[1..], false, k)
  {
    var tx, a := txs[k + 1], c.addressOf(txs[k + 1].fromPubKey);
    assert txs[1..][k] == tx;
    LaterBalance(c, copy, height, state, txs, first, k + 1, tx.to);
    LaterBalance(c, copy, height, state, txs, first, k, a);
    LaterNonces(c, copy, height, state, txs, first, k, a);
  }

  lemma LaterBalance(c: Crypto, copy: Copy, height: uint64, state: State, txs: seq<Tx>, first: bool, k: nat, a: Address)
    requires k < |txs| && ApplyTx(c, copy, height, state, txs[0], first).error.None?
    ensures BalanceAt(c, state, txs, k + 1, a)
         == BalanceAt(c, ApplyTx(c, copy, height, state, txs[0], first).state, txs[1..], k, a)
  {
    TxAccount(c, copy, height, state, txs[0], first, a);
    SplitFirst(c, txs[..k + 1], a);
    assert txs[..k + 1][1..] == txs[1..][..k];
  }

  lemma LaterNonces(c: Crypto, copy: Copy, height: uint64, state: State, txs: seq<Tx>, first: bool, k: nat, a: Address)
    requires k < |txs| && ApplyTx(c, copy, height, state, txs[0], first).error.None?
    ensures NonceAt(c, state, txs, k + 1, a)
         == NonceAt(c, ApplyTx(c, copy, height, state, txs[0], first).state, txs[1..], k, a)
  {
    TxAccount(c, copy, height, state, txs[0], first, a);
    assert txs[..k + 1][1..] == txs[1..][..k] && txs[..k + 1][0] == txs[0] && [txs[0]][1..] == [];
  }

  lemma FineStep(c: Crypto, copy: Copy, height: uint64, state: State, txs: seq<Tx>, first: bool)
    requires txs != [] && ApplyTx(c, copy, height, state, txs[0], first).error.None?
    ensures AllFine(c, copy, height, state, txs, first)
       <==> AllFine(c, copy, height, ApplyTx(c, copy, height, state, txs[0], first).state, txs[1..], false)
  {
    var after, rest := ApplyTx(c, copy, height, state, txs[0], first).state, txs[1..];
    FirstFine(c, copy, height, state, txs, first);
    forall k | 0 <= k < |rest|
      ensures FineAt(c, copy, height, after, rest, false, k) <==> FineAt(c, copy, height, state, txs, first, k + 1)
    {
      LaterFine(c, copy, height, state, txs, first, k);
    }
    if AllFine(c, copy, height, after, rest, false) {
      forall k | 0 <= k < |txs| ensures FineAt(c, copy, height, state, txs, first, k) {
        assert k > 0 ==> FineAt(c, copy, height, after, rest, false, k - 1);
      }
    }
  }

  /** The transactions of a block are applied exactly when each is fine after those before it. */
  lemma {:induction false} AppliedIff(c: Crypto, copy: Copy, height: uint64, state: State, txs: seq<Tx>, i: nat)
    requires i <= |txs|
    ensures ApplyFrom(c, copy, height, state, txs, i).error.None? <==> AllFine(c, copy, height, state, txs[i..], i == 0)
    decreases |txs| - i
  {
    if i < |txs| {
      var o := ApplyTx(c, copy, height, state, txs[i], i == 0);
      FirstFine(c, copy, height, state, txs[i..], i == 0);
      if o.error.None? {
        assert txs[i..][1..] == txs[i + 1..];
        FineStep(c, copy, height, state, txs[i..], i == 0);
        AppliedIff(c, copy, height, o.state, txs, i + 1);
      } else {
        assert !FineAt(c, copy, height, state, txs[i..], i == 0, 0);
      }
    }
  }

  /** The k-th transaction is the first one at fault, for this reason. */
  predicate FirstAtFault(
      c: Crypto, copy: Copy, height: uint64, state: State, txs: seq<Tx>, first: bool, k: nat, error: Option<Error>) {
    && k < |txs| && FaultAt(c, copy, height, state, txs, first, k) == error
    && forall j :: 0 <= j < k ==> FineAt(c, copy, height, state, txs, first, j)
  }

  lemma FaultStep(
      c: Crypto, copy: Copy, height: uint64, state: State, txs: seq<Tx>, first: bool, k: nat, error: Option<Error>)
    requires txs != [] && ApplyTx(c, copy, height, state, txs[0], first).error.None?
    requires FirstAtFault(c, copy, height, ApplyTx(c, copy, height, state, txs[0], first).state, txs[1..], false, k, error)
    ensures FirstAtFault(c, copy, height, state, txs, first, k + 1, error)
  {
    FirstFine(c, copy, height, state, txs, first);
    LaterFine(c, copy, height, state, txs, first, k);
    forall j | 0 <= j < k + 1 ensures FineAt(c, copy, height, state, txs, first, j) {
      if j > 0 {
        LaterFine(c, copy, height, state, txs, first, j - 1);
      }
    }
  }

  /** Which error it is: the fault of the first transaction at fault. */
  lemma {:induction false} RefusedFor(c: Crypto, copy: Copy, height: uint64, state: State, txs: seq<Tx>, i: nat)
      returns (k: nat)
    requires i <= |txs| && ApplyFrom(c, copy, height, state, txs, i).error.Some?
    ensures FirstAtFault(c, copy, height, state, txs[i..], i == 0, k, ApplyFrom(c, copy, height, state, txs, i).error)
    decreases |txs| - i
  {
    var o, rest := ApplyTx(c, copy, height, state, txs[i], i == 0), txs[i..];
    if o.error.Some? {
      k := 0;
      FirstFine(c, copy, height, state, rest, i == 0);
    } else {
      var later := RefusedFor(c, copy, height, o.state, txs, i + 1);
      k := later + 1;
      assert rest[0] == txs[i] && rest[1..] == txs[i + 1..];
      FaultStep(c, copy, height, state, rest, i == 0, later, ApplyFrom(c, copy, height, o.state, txs, i + 1).error);
    }
  }

  // ----- the coinbase -----

  /** A percentage of an exact amount, with the product cut to 64 bits. */
  function Percentage(amount: nat, percent: nat): nat {
    amount * percent % TWO64 / 100
  }

  /** The coinbase pays the block's own miner, exactly the shares of the reward and of the block's fees. */
  predicate CoinbaseRight(p: MonetaryPolicy, b: Block) {
    && |b.txs| > 0
    && b.txs[0].to == b.miner
    && b.txs[0].amount
       == Percentage(RewardAt(p, b.height), p.minerRewardShare) + Percentage(Fees(b.txs[1..]), p.minerFeeShare)
  }

  lemma ModuloProduct(a: nat, b: nat)
    ensures a % TWO64 * b % TWO64 == a * b % TWO64
  {
    var q := a / TWO64;
    assert a == q * TWO64 + a % TWO64;
    assert a * b == a % TWO64 * b + TWO64 * (q * b);
    DropMultiples(a % TWO64 * b, q * b);
  }

  lemma DropMultiples(x: nat, n: nat)
    ensures (x + TWO64 * n) % TWO64 == x % TWO64
  {
  }

  lemma ShareIsPercentage(reward: uint64, percent: uint8)
    ensures ShareOf(reward, percent) == Percentage(reward, percent)
  {
    MulNonNegative(reward, percent);
    WrapIsModulo(reward * percent);
  }

  lemma FeeShareIsPercentage(p: MonetaryPolicy, fees: nat)
    ensures MinerFeeAmount(p, fees % TWO64) == Percentage(fees, p.minerFeeShare)
  {
    var cut: uint64 := fees % TWO64;
    ModuloProduct(fees, p.minerFeeShare);
    MulNonNegative(cut, p.minerFeeShare);
    WrapIsModulo(cut * p.minerFeeShare);
    if cut == 0 || p.minerFeeShare == 0 {
      assert cut * p.minerFeeShare == 0;
    }
  }

  lemma {:induction false} FeesAreModulo(txs: seq<Tx>, n: nat)
    requires 1 <= n <= |txs|
    ensures FeesWrapped(txs, n) == Fees(txs[1..n]) % TWO64
  {
    if n > 1 {
      FeesAreModulo(txs, n - 1);
      FeesAppend(txs[1..n - 1], txs[n - 1]);
      assert txs[1..n] == txs[1..n - 1] + [txs[n - 1]];
    }
  }

  /** What the code expects is that sum, whatever wraps on the way. */
  lemma ExpectedIsRight(p: MonetaryPolicy, height: uint64, txs: seq<Tx>)
    requires txs != []
    ensures ExpectedCoinbase(p, height, FeesWrapped(txs, |txs|))
         == Percentage(RewardAt(p, height), p.minerRewardShare) + Percentage(Fees(txs[1..]), p.minerFeeShare)
  {
    FeesAreModulo(txs, |txs|);
    assert txs[1..|txs|] == txs[1..];
    ShareIsPercentage(RewardAt(p, height), p.minerRewardShare);
    FeeShareIsPercentage(p, Fees(txs[1..]));
  }

  /** Where no product leaves uint64, the shares are plain percentages. */
  lemma PlainPercentage(amount: nat, percent: nat)
    requires amount * percent < TWO64
    ensures Percentage(amount, percent) == amount * percent / 100
  {
    MulNonNegative(amount, percent);
  }

  // ----- blocks -----

  /** What the genesis address is paid: nothing in the dry run and at height 0. */
  function GenesisShare(p: MonetaryPolicy, copy: Copy, height: uint64): nat {
    if copy.CoreChain? && height > 0 then Percentage(RewardAt(p, height), p.genesisShare) else 0
  }

  /** The genesis address has room for its share. */
  predicate RoomForShare(p: MonetaryPolicy, copy: Copy, height: uint64, state: State) {
    copy.CoreChain? ==> Get(state, copy.genesis).balance + GenesisShare(p, copy, height) < TWO64
  }

  /** The state the transactions start from. */
  function Opening(p: MonetaryPolicy, copy: Copy, height: uint64, state: State): State
    requires RoomForShare(p, copy, height, state)
  {
    var share := GenesisShare(p, copy, height);
    if share == 0 then state
    else
      var own := Get(state, copy.genesis);
      state[copy.genesis := Account(own.balance + share, own.nonce)]
  }

  /** Both copies want a miner's address they take for one; the commit a block within the size limit. */
  predicate BlockShaped(c: Crypto, p: MonetaryPolicy, copy: Copy, b: Block) {
    && |b.txs| > 0 && b.txs[0].kind == Coinbase
    && (copy.CoreChain? ==> b.withinSizeLimit)
    && (b.height > 0 && copy.CoreChain? ==> c.validAddress(b.miner))
    && (b.height > 0 && copy.Validator? ==> c.validMiner(b.miner))
    && (b.height > 0 ==> CoinbaseRight(p, b))
  }

  predicate BlockRight(c: Crypto, p: MonetaryPolicy, copy: Copy, state: State, b: Block) {
    && BlockShaped(c, p, copy, b)
    && RoomForShare(p, copy, b.height, state)
    && AllFine(c, copy, b.height, Opening(p, copy, b.height, state), b.txs, true)
  }

  lemma OpeningIsPaid(p: MonetaryPolicy, copy: Copy, height: uint64, state: State)
    ensures RoomForShare(p, copy, height, state) <==> CreditGenesis(p, copy, height, state).error.None?
    ensures RoomForShare(p, copy, height, state) ==>
      Opening(p, copy, height, state) == CreditGenesis(p, copy, height, state).state
  {
    ShareIsPercentage(RewardAt(p, height), p.genesisShare);
  }

  /**
   A block is accepted, by either copy of the rule and from any state, exactly when its coinbase pays the miner the exact
   amount, the genesis address has room for its share, and every transaction is well formed, next in its sender's count,
   paid for, and within its recipient's room, all told from the transactions before it.
   */
  lemma BlockAcceptedIff(c: Crypto, p: MonetaryPolicy, copy: Copy, state: State, b: Block)
    ensures ApplyBlock(c, p, copy, state, b).error.None? <==> BlockRight(c, p, copy, state, b)
  {
    OpeningIsPaid(p, copy, b.height, state);
    if |b.txs| > 0 {
      ExpectedIsRight(p, b.height, b.txs);
      AppliedIff(c, copy, b.height, CreditGenesis(p, copy, b.height, state).state, b.txs, 0);
      assert b.txs[0..] == b.txs;
    }
  }

  /** The first rule a block breaks before its transactions are looked at. */
  function BlockFault(c: Crypto, p: MonetaryPolicy, copy: Copy, state: State, b: Block): Option<Error> {
    if copy.CoreChain? && !b.withinSizeLimit then Some(BlockTooLarge)
    else if |b.txs| == 0 then Some(NoTransactions)
    else if b.txs[0].kind != Coinbase then Some(FirstNotCoinbase)
    else if b.height > 0 && !(if copy.CoreChain? then c.validAddress(b.miner) else c.validMiner(b.miner))
      then Some(InvalidMiner)
    else if b.height > 0 && b.txs[0].to != b.miner then Some(CoinbaseNotToMiner)
    else if b.height > 0 && !CoinbaseRight(p, b) then Some(BadCoinbaseAmount)
    else if !RoomForShare(p, copy, b.height, state) then Some(BalanceOverflow)
    else None
  }

  /** Which error it is: the block's own fault, or else that of its transactions on the opening state. */
  lemma BlockRefusedFor(c: Crypto, p: MonetaryPolicy, copy: Copy, state: State, b: Block)
    ensures
      var fault := BlockFault(c, p, copy, state, b);
      ApplyBlock(c, p, copy, state, b).error ==
        if fault.Some? then fault
        else ApplyFrom(c, copy, b.height, Opening(p, copy, b.height, state), b.txs, 0).error
  {
    OpeningIsPaid(p, copy, b.height, state);
    if |b.txs| > 0 {
      ExpectedIsRight(p, b.height, b.txs);
    }
  }

  /** What it leaves in every account. */
  lemma BlockLeaves(c: Crypto, p: MonetaryPolicy, copy: Copy, state: State, b: Block, a: Address)
    requires BlockRight(c, p, copy, state, b)
    ensures
      var acct := Get(ApplyBlock(c, p, copy, state, b).state, a);
      && acct.balance == BalanceAt(c, state, b.txs, |b.txs|, a)
                         + (if copy == CoreChain(a) then GenesisShare(p, copy, b.height) else 0)
      && acct.nonce == Get(state, a).nonce + |NoncesOf(c, b.txs, a)|
  {
    BlockAcceptedIff(c, p, copy, state, b);
    BlockAccount(c, p, copy, state, b, a);
    ShareIsPercentage(RewardAt(p, b.height), p.genesisShare);
    assert b.txs[..|b.txs|] == b.txs;
  }

  /** A block whose coinbase goes elsewhere, or carries another amount, is refused by both copies. */
  lemma WrongCoinbaseRefused(c: Crypto, p: MonetaryPolicy, copy: Copy, state: State, b: Block)
    requires b.height > 0 && !CoinbaseRight(p, b)
    ensures ApplyBlock(c, p, copy, state, b).error.Some?
  {
    BlockAcceptedIff(c, p, copy, state, b);
  }

  // ----- ValidateBlock -----

  /** What a validated block has, with or without a state. */
  ghost predicate ValidRight(c: Crypto, p: MonetaryPolicy, chainId: uint64, state: Option<State>, b: Block, batched: bool) {
    && |b.txs| > 0 && b.txs[0].kind == Coinbase
    && (forall i :: 0 <= i < |b.txs| ==> b.txs[i].chainId in {0, chainId})
    && FirstFailing(c, DefaultChainIds(b.txs, chainId), b.height, batched, None)
    && (b.height > 0 ==> c.validMiner(b.miner) && CoinbaseRight(p, b) && Fees(b.txs[1..]) < TWO64)
    && (b.height > 0 && state.Some? ==>
          AllFine(c, Validator, b.height, state.value, DefaultChainIds(b.txs, chainId), true))
  }

  lemma {:induction false} SameFees(some: seq<Tx>, other: seq<Tx>)
    requires |some| == |other|
    requires forall i :: 0 <= i < |some| ==> some[i].kind == other[i].kind && some[i].fee == other[i].fee
    ensures Fees(some) == Fees(other)
  {
    if some != [] {
      SameFees(some[1..], other[1..]);
    }
  }

  lemma DefaultKeepsCoinbase(p: MonetaryPolicy, chainId: uint64, b: Block)
    requires |b.txs| > 0
    ensures Fees(Defaulted(b, chainId).txs[1..]) == Fees(b.txs[1..])
    ensures CoinbaseRight(p, Defaulted(b, chainId)) <==> CoinbaseRight(p, b)
  {
    SameFees(Defaulted(b, chainId).txs[1..], b.txs[1..]);
  }

  /** `ValidateBlock` accepts exactly the blocks with a good header that have all this. */
  lemma ValidatedIff(
      c: Crypto, p: MonetaryPolicy, chainId: uint64, headerOk: bool, state: Option<State>, b: Block, batched: bool)
    ensures Accepts(c, p, chainId, headerOk, state, b, batched) <==> headerOk && ValidRight(c, p, chainId, state, b, batched)
  {
    if |b.txs| > 0 {
      var b' := Defaulted(b, chainId);
      DefaultKeepsCoinbase(p, chainId, b);
      ExpectedIsRight(p, b.height, b'.txs);
      assert (forall i :: 0 <= i < |b'.txs| ==> b'.txs[i].chainId == chainId)
        <==> forall i :: 0 <= i < |b.txs| ==> b.txs[i].chainId in {0, chainId};
      if state.Some? {
        BlockAcceptedIff(c, p, Validator, state.value, b');
      }
    }
  }
}
