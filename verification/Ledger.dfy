/**
 The account ledger: blockchain/consensus/validator.go and its guarded twin in
 blockchain/core/chain_struct.go.
 */
module Ledger {
  import opened Machine
  import opened Monetary

  type Address = string
  type Bytes = seq<uint8>

  const PUBLIC_KEY_SIZE := 32
  const SIGNATURE_SIZE := 64

  datatype TxKind = Coinbase | Transfer | Other

  datatype Tx = Tx(
    kind: TxKind,
    chainId: uint64,
    fromPubKey: Bytes,
    to: Address,
    amount: uint64,
    fee: uint64,
    nonce: uint64,
    signature: Bytes)

  /**
   Hashing, signatures and address formats; every result holds for every choice of them. The validator has a signing
   hash of its own for batches, over the block height as well, and an address check of its own for miners.
   */
  datatype Crypto = Crypto(
    verify: (Bytes, Bytes, Bytes) -> bool,
    signingHash: (Tx, uint64) -> Option<Bytes>,
    batchHash: (Tx, uint64) -> Option<Bytes>,
    addressOf: Bytes -> Address,
    validAddress: Address -> bool,
    validMiner: Address -> bool)

  datatype Account = Account(balance: uint64, nonce: uint64)

  type State = map<Address, Account>

  datatype Block = Block(height: uint64, miner: Address, txs: seq<Tx>, withinSizeLimit: bool)

  /** Which of the two copies of the rule runs: the validator's dry run or the chain's commit. */
  datatype Copy = Validator | CoreChain(genesis: Address)

  datatype Error =
    | NoTransactions | FirstNotCoinbase | InvalidMiner | CoinbaseNotToMiner | BadCoinbaseAmount
    | CoinbaseNotFirst | Unverified | NoSender | BadNonce | AmountFeeOverflow | InsufficientFunds
    | BalanceOverflow | UnknownKind | BlockTooLarge

  /** The state after a rule ran, and the error it stopped with; a failed rule may have written already. */
  datatype Outcome = Outcome(state: State, error: Option<Error>)

  /** Reading a missing map key yields the zero account. */
  function Get(state: State, a: Address): Account {
    if a in state then state[a] else Account(0, 0)
  }

  function FromAddress(c: Crypto, tx: Tx): Option<Address> {
    if tx.kind == Transfer && |tx.fromPubKey| == PUBLIC_KEY_SIZE then Some(c.addressOf(tx.fromPubKey)) else None
  }

  /** A transaction without a chain id is taken to mean this chain. */
  function WithChainId(tx: Tx, chainId: uint64): Tx {
    if tx.chainId == 0 then tx.(chainId := chainId) else tx
  }

  /** Sizes in order, and the signature good for this message. */
  predicate Signs(c: Crypto, tx: Tx, message: Option<Bytes>) {
    && |tx.fromPubKey| == PUBLIC_KEY_SIZE
    && |tx.signature| == SIGNATURE_SIZE
    && message.Some? && c.verify(tx.fromPubKey, message.value, tx.signature)
  }

  /** The signature part of the check. */
  predicate SignatureOk(c: Crypto, tx: Tx, height: uint64) {
    Signs(c, tx, c.signingHash(tx, height))
  }

  /** The other fields a transfer must have. */
  predicate FieldsOk(c: Crypto, tx: Tx) {
    tx.amount > 0 && c.validAddress(tx.to) && tx.nonce > 0 && tx.chainId != 0
  }

  predicate VerifyForConsensus(c: Crypto, tx: Tx, height: uint64) {
    match tx.kind
    case Coinbase =>
      tx.chainId != 0 && tx.amount > 0 && c.validAddress(tx.to)
      && tx.fromPubKey == [] && tx.signature == [] && tx.nonce == 0 && tx.fee == 0
    case Transfer => FieldsOk(c, tx) && SignatureOk(c, tx, height)
    case Other => false
  }

  /** The unchecked sum a transfer is charged. */
  function Debit(tx: Tx): uint64 {
    Add(tx.amount, tx.fee)
  }

  function Credit(state: State, a: Address, amount: uint64): Outcome {
    var acct := Get(state, a);
    if acct.balance > MAX_UINT64 - amount then Outcome(state, Some(BalanceOverflow))
    else Outcome(state[a := acct.(balance := acct.balance + amount)], None)
  }

  function ApplyTransfer(c: Crypto, copy: Copy, height: uint64, state: State, tx: Tx): Outcome {
    if !VerifyForConsensus(c, tx, height) then Outcome(state, Some(Unverified))
    else match FromAddress(c, tx)
      case None => Outcome(state, Some(NoSender))
      case Some(a) =>
        var from := Get(state, a);
        if Add(from.nonce, 1) != tx.nonce then Outcome(state, Some(BadNonce))
        else if copy.CoreChain? && tx.amount > MAX_UINT64 - tx.fee then Outcome(state, Some(AmountFeeOverflow))
        else if from.balance < Debit(tx) then Outcome(state, Some(InsufficientFunds))
        else Credit(state[a := Account(from.balance - Debit(tx), tx.nonce)], tx.to, tx.amount)
  }

  function ApplyTx(c: Crypto, copy: Copy, height: uint64, state: State, tx: Tx, first: bool): Outcome {
    match tx.kind
    case Coinbase =>
      if !first then Outcome(state, Some(CoinbaseNotFirst))
      else if !VerifyForConsensus(c, tx, height) then Outcome(state, Some(Unverified))
      else Credit(state, tx.to, tx.amount)
    case Transfer => ApplyTransfer(c, copy, height, state, tx)
    case Other => Outcome(state, Some(UnknownKind))
  }

  /** The transactions of a block from index `i` on. */
  function ApplyFrom(c: Crypto, copy: Copy, height: uint64, state: State, txs: seq<Tx>, i: nat): Outcome
    requires i <= |txs|
    decreases |txs| - i
  {
    if i == |txs| then Outcome(state, None)
    else
      var o := ApplyTx(c, copy, height, state, txs[i], i == 0);
      if o.error.Some? then o else ApplyFrom(c, copy, height, o.state, txs, i + 1)
  }

  /** The unchecked uint64 sum of the transfer fees behind the coinbase, up to index `n`. */
  function FeesWrapped(txs: seq<Tx>, n: nat): uint64
    requires n <= |txs|
  {
    if n <= 1 then 0
    else if txs[n - 1].kind == Transfer then Add(FeesWrapped(txs, n - 1), txs[n - 1].fee)
    else FeesWrapped(txs, n - 1)
  }

  /** The commit checks the miner's address as it checks any, the dry run less strictly. */
  predicate MinerOk(c: Crypto, copy: Copy, miner: Address) {
    if copy.CoreChain? then c.validAddress(miner) else c.validMiner(miner)
  }

  /** The economic rules on the coinbase of a non-genesis block. */
  function CoinbaseError(c: Crypto, p: MonetaryPolicy, copy: Copy, b: Block): Option<Error>
    requires |b.txs| > 0
  {
    if !MinerOk(c, copy, b.miner) then Some(InvalidMiner)
    else if b.txs[0].to != b.miner then Some(CoinbaseNotToMiner)
    else if b.txs[0].amount != ExpectedCoinbase(p, b.height, FeesWrapped(b.txs, |b.txs|))
      then Some(BadCoinbaseAmount)
    else None
  }

  /** The share of the reward that only the core chain pays, to the genesis address. */
  function GenesisReward(p: MonetaryPolicy, copy: Copy, height: uint64): uint64 {
    if copy.CoreChain? && height > 0 then ShareOf(RewardAt(p, height), p.genesisShare) else 0
  }

  function CreditGenesis(p: MonetaryPolicy, copy: Copy, height: uint64, state: State): Outcome {
    var reward := GenesisReward(p, copy, height);
    if copy.CoreChain? && reward > 0 then Credit(state, copy.genesis, reward) else Outcome(state, None)
  }

  /** What applying one block does to the state. */
  function ApplyBlock(c: Crypto, p: MonetaryPolicy, copy: Copy, state: State, b: Block): Outcome {
    if copy.CoreChain? && !b.withinSizeLimit then Outcome(state, Some(BlockTooLarge))
    else if |b.txs| == 0 then Outcome(state, Some(NoTransactions))
    else if b.txs[0].kind != Coinbase then Outcome(state, Some(FirstNotCoinbase))
    else if b.height > 0 && CoinbaseError(c, p, copy, b).Some? then Outcome(state, CoinbaseError(c, p, copy, b))
    else
      var o := CreditGenesis(p, copy, b.height, state);
      if o.error.Some? then o else ApplyFrom(c, copy, b.height, o.state, b.txs, 0)
  }

  /** The blocks of a chain, one after the other. */
  function ApplyChain(c: Crypto, p: MonetaryPolicy, copy: Copy, state: State, blocks: seq<Block>): Outcome
    decreases |blocks|
  {
    if |blocks| == 0 then Outcome(state, None)
    else
      var o := ApplyBlock(c, p, copy, state, blocks[0]);
      if o.error.Some? then o else ApplyChain(c, p, copy, o.state, blocks[1..])
  }

  /** The part of `applyBlockToState` that looks at the coinbase; the reward is used again behind it. */
  method CheckCoinbase(c: Crypto, p: MonetaryPolicy, copy: Copy, b: Block) returns (error: Option<Error>, reward: uint64)
    requires |b.txs| > 0
    ensures error == CoinbaseError(c, p, copy, b)
    ensures error.None? ==> reward == RewardAt(p, b.height)
  {
    reward := 0;
    if !MinerOk(c, copy, b.miner) {
      return Some(InvalidMiner), reward;
    }
    var fees: uint64 := 0;
    for j := 1 to |b.txs|
      invariant fees == FeesWrapped(b.txs, j)
    {
      if b.txs[j].kind == Transfer {
        fees := Add(fees, b.txs[j].fee);
      }
    }
    if b.txs[0].to != b.miner {
      return Some(CoinbaseNotToMiner), reward;
    }
    var paid, _ := BlockReward(p, b.height);
    reward := paid;
    if b.txs[0].amount != Add(ShareOf(reward, p.minerRewardShare), MinerFeeAmount(p, fees)) {
      return Some(BadCoinbaseAmount), reward;
    }
    return None, reward;
  }

  /** The in-place form: the map the source threads through its loops. */
  class WorldState {
    var accounts: State

    constructor (state: State)
      ensures accounts == state
    {
      accounts := state;
    }

    method CreditAccount(a: Address, amount: uint64) returns (error: Option<Error>)
      modifies this
      ensures Outcome(accounts, error) == Credit(old(accounts), a, amount)
    {
      var acct := Get(accounts, a);
      if acct.balance > MAX_UINT64 - amount {
        return Some(BalanceOverflow);
      }
      acct := acct.(balance := acct.balance + amount);
      accounts := accounts[a := acct];
      return None;
    }

    method TransferTx(c: Crypto, copy: Copy, height: uint64, tx: Tx) returns (error: Option<Error>)
      modifies this
      ensures Outcome(accounts, error) == ApplyTransfer(c, copy, height, old(accounts), tx)
    {
      if !VerifyForConsensus(c, tx, height) {
        return Some(Unverified);
      }
      var sender := FromAddress(c, tx);
      if sender.None? {
        return Some(NoSender);
      }
      var from := Get(accounts, sender.value);
      if Add(from.nonce, 1) != tx.nonce {
        return Some(BadNonce);
      }
      if copy.CoreChain? && tx.amount > MAX_UINT64 - tx.fee {
        return Some(AmountFeeOverflow);
      }
      var totalDebit := Add(tx.amount, tx.fee);
      if from.balance < totalDebit {
        return Some(InsufficientFunds);
      }
      accounts := accounts[sender.value := Account(from.balance - totalDebit, tx.nonce)];
      error := CreditAccount(tx.to, tx.amount);
    }

    /** The loop over the transactions. */
    method ApplyTransactions(c: Crypto, copy: Copy, height: uint64, txs: seq<Tx>) returns (error: Option<Error>)
      modifies this
      ensures Outcome(accounts, error) == ApplyFrom(c, copy, height, old(accounts), txs, 0)
    {
      for i := 0 to |txs|
        invariant ApplyFrom(c, copy, height, old(accounts), txs, 0) == ApplyFrom(c, copy, height, accounts, txs, i)
      {
        var tx := txs[i];
        match tx.kind {
          case Coinbase =>
            if i != 0 {
              return Some(CoinbaseNotFirst);
            }
            if !VerifyForConsensus(c, tx, height) {
              return Some(Unverified);
            }
            error := CreditAccount(tx.to, tx.amount);
          case Transfer =>
            error := TransferTx(c, copy, height, tx);
          case Other =>
            return Some(UnknownKind);
        }
        if error.Some? {
          return;
        }
      }
      return None;
    }

    /** `applyBlockToState`: the loops over the map, against the function above. */
    method ApplyBlockToState(c: Crypto, p: MonetaryPolicy, copy: Copy, b: Block) returns (error: Option<Error>)
      modifies this
      ensures Outcome(accounts, error) == ApplyBlock(c, p, copy, old(accounts), b)
    {
      if copy.CoreChain? && !b.withinSizeLimit {
        return Some(BlockTooLarge);
      }
      if |b.txs| == 0 {
        return Some(NoTransactions);
      }
      if b.txs[0].kind != Coinbase {
        return Some(FirstNotCoinbase);
      }
      if b.height > 0 {
        var reward;
        error, reward := CheckCoinbase(c, p, copy, b);
        if error.Some? {
          return;
        }
        if copy.CoreChain? {
          var genesisReward := ShareOf(reward, p.genesisShare);
          if genesisReward > 0 {
            error := CreditAccount(copy.genesis, genesisReward);
            if error.Some? {
              return;
            }
          }
        }
      }
      error := ApplyTransactions(c, copy, b.height, b.txs);
    }
  }
}
