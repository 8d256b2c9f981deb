/** What every accepted block, and every accepted chain of blocks, keeps. */
module LedgerLaws {
  import opened Machine
  import opened Monetary
  import opened Ledger
  import opened Sums

  // ----- supply -----

  ghost function Balances(state: State): map<Address, int> {
    map a | a in state :: state[a].balance
  }

  ghost function Supply(state: State): int {
    MapSum(Balances(state))
  }

  /** Whether `Amount + Fee` of a transfer leaves the range of uint64. */
  predicate Wraps(tx: Tx) {
    tx.kind == Transfer && tx.amount + tx.fee >= TWO64
  }

  /** What one applied transaction adds to the supply: minted, minus burnt, plus 2^64 for a wrapped debit. */
  function SupplyDelta(tx: Tx): int {
    match tx.kind
    case Coinbase => tx.amount
    case Transfer => if Wraps(tx) then TWO64 - tx.fee else 0 - tx.fee
    case Other => 0
  }

  function Minted(txs: seq<Tx>): nat {
    if txs == [] then 0 else (if txs[0].kind == Coinbase then txs[0].amount else 0) + Minted(txs[1..])
  }

  function Fees(txs: seq<Tx>): nat {
    if txs == [] then 0 else (if txs[0].kind == Transfer then txs[0].fee else 0) + Fees(txs[1..])
  }

  function WrapCount(txs: seq<Tx>): nat {
    if txs == [] then 0 else (if Wraps(txs[0]) then 1 else 0) + WrapCount(txs[1..])
  }

  function ChainMinted(p: MonetaryPolicy, copy: Copy, blocks: seq<Block>): nat {
    if blocks == [] then 0
    else Minted(blocks[0].txs) + GenesisReward(p, copy, blocks[0].height) + ChainMinted(p, copy, blocks[1..])
  }

  function ChainFees(blocks: seq<Block>): nat {
    if blocks == [] then 0 else Fees(blocks[0].txs) + ChainFees(blocks[1..])
  }

  function ChainWraps(blocks: seq<Block>): nat {
    if blocks == [] then 0 else WrapCount(blocks[0].txs) + ChainWraps(blocks[1..])
  }

  lemma SupplyWrite(state: State, a: Address, acct: Account)
    ensures Supply(state[a := acct]) == Supply(state) - Get(state, a).balance + acct.balance
  {
    assert Balances(state[a := acct]) == Balances(state)[a := acct.balance];
    SumUpdate(Balances(state), a, acct.balance);
  }

  lemma CreditSupply(state: State, a: Address, amount: uint64)
    ensures Credit(state, a, amount).error.None?
        ==> Supply(Credit(state, a, amount).state) == Supply(state) + amount
  {
    var acct := Get(state, a);
    if acct.balance <= MAX_UINT64 - amount {
      SupplyWrite(state, a, acct.(balance := acct.balance + amount));
    }
  }

  /** Sender, recipient and miner may be any addresses, equal or not. */
  lemma TxSupply(c: Crypto, copy: Copy, height: uint64, state: State, tx: Tx, first: bool)
    requires ApplyTx(c, copy, height, state, tx, first).error.None?
    ensures Supply(ApplyTx(c, copy, height, state, tx, first).state) == Supply(state) + SupplyDelta(tx)
  {
    if tx.kind == Coinbase {
      CreditSupply(state, tx.to, tx.amount);
    } else {
      var a := FromAddress(c, tx).value;
      var charged := Account(Get(state, a).balance - Debit(tx), tx.nonce);
      SupplyWrite(state, a, charged);
      CreditSupply(state[a := charged], tx.to, tx.amount);
    }
  }

  lemma {:induction false} TxsSupply(c: Crypto, copy: Copy, height: uint64, state: State, txs: seq<Tx>, i: nat)
    requires i <= |txs| && ApplyFrom(c, copy, height, state, txs, i).error.None?
    ensures Supply(ApplyFrom(c, copy, height, state, txs, i).state) + Fees(txs[i..])
         == Supply(state) + Minted(txs[i..]) + TWO64 * WrapCount(txs[i..])
    decreases |txs| - i
  {
    if i < |txs| {
      TxSupply(c, copy, height, state, txs[i], i == 0);
      TxsSupply(c, copy, height, ApplyTx(c, copy, height, state, txs[i], i == 0).state, txs, i + 1);
      assert txs[i..][1..] == txs[i + 1..];
    }
  }

  lemma BlockSupply(c: Crypto, p: MonetaryPolicy, copy: Copy, state: State, b: Block)
    requires ApplyBlock(c, p, copy, state, b).error.None?
    ensures Supply(ApplyBlock(c, p, copy, state, b).state) + Fees(b.txs)
         == Supply(state) + Minted(b.txs) + GenesisReward(p, copy, b.height) + TWO64 * WrapCount(b.txs)
  {
    if copy.CoreChain? {
      CreditSupply(state, copy.genesis, GenesisReward(p, copy, b.height));
    }
    TxsSupply(c, copy, b.height, CreditGenesis(p, copy, b.height, state).state, b.txs, 0);
    assert b.txs[0..] == b.txs;
  }

  /** The exact law: minted minus burnt, plus 2^64 for every wrapped debit on the chain. */
  lemma {:induction false} ChainSupply(c: Crypto, p: MonetaryPolicy, copy: Copy, state: State, blocks: seq<Block>)
    requires ApplyChain(c, p, copy, state, blocks).error.None?
    ensures Supply(ApplyChain(c, p, copy, state, blocks).state) + ChainFees(blocks)
         == Supply(state) + ChainMinted(p, copy, blocks) + TWO64 * ChainWraps(blocks)
    decreases |blocks|
  {
    if blocks != [] {
      BlockSupply(c, p, copy, state, blocks[0]);
      ChainSupply(c, p, copy, ApplyBlock(c, p, copy, state, blocks[0]).state, blocks[1..]);
    }
  }

  /** Conservation holds exactly for the chains without a wrapped debit. */
  lemma ConservationIff(c: Crypto, p: MonetaryPolicy, copy: Copy, state: State, blocks: seq<Block>)
    requires ApplyChain(c, p, copy, state, blocks).error.None?
    ensures Supply(ApplyChain(c, p, copy, state, blocks).state)
              == Supply(state) + ChainMinted(p, copy, blocks) - ChainFees(blocks)
       <==> forall k, j :: 0 <= k < |blocks| && 0 <= j < |blocks[k].txs| ==> !Wraps(blocks[k].txs[j])
  {
    ChainSupply(c, p, copy, state, blocks);
    ChainWrapsZero(blocks);
  }

  lemma {:induction false} WrapCountZero(txs: seq<Tx>)
    ensures WrapCount(txs) == 0 <==> forall j :: 0 <= j < |txs| ==> !Wraps(txs[j])
  {
    if txs != [] {
      WrapCountZero(txs[1..]);
      assert forall j :: 0 < j < |txs| ==> txs[j] == txs[1..][j - 1];
    }
  }

  lemma {:induction false} ChainWrapsZero(blocks: seq<Block>)
    ensures ChainWraps(blocks) == 0
       <==> forall k, j :: 0 <= k < |blocks| && 0 <= j < |blocks[k].txs| ==> !Wraps(blocks[k].txs[j])
  {
    if blocks != [] {
      WrapCountZero(blocks[0].txs);
      ChainWrapsZero(blocks[1..]);
      assert forall k :: 0 < k < |blocks| ==> blocks[k] == blocks[1..][k - 1];
    }
  }

  /** The core chain's guard lets no wrapped debit through. */
  lemma {:induction false} CoreTxsNeverWrap(c: Crypto, g: Address, height: uint64, state: State, txs: seq<Tx>, i: nat)
    requires i <= |txs| && ApplyFrom(c, CoreChain(g), height, state, txs, i).error.None?
    ensures WrapCount(txs[i..]) == 0
    decreases |txs| - i
  {
    if i < |txs| {
      CoreTxsNeverWrap(c, g, height, ApplyTx(c, CoreChain(g), height, state, txs[i], i == 0).state, txs, i + 1);
      assert txs[i..][1..] == txs[i + 1..];
    }
  }

  /** On the core chain conservation holds without any condition. */
  lemma {:induction false} CoreChainConserves(c: Crypto, p: MonetaryPolicy, g: Address, state: State, blocks: seq<Block>)
    requires ApplyChain(c, p, CoreChain(g), state, blocks).error.None?
    ensures ChainWraps(blocks) == 0
    ensures Supply(ApplyChain(c, p, CoreChain(g), state, blocks).state)
         == Supply(state) + ChainMinted(p, CoreChain(g), blocks) - ChainFees(blocks)
    decreases |blocks|
  {
    if blocks != [] {
      var b := blocks[0];
      var paid := CreditGenesis(p, CoreChain(g), b.height, state).state;
      CoreTxsNeverWrap(c, g, b.height, paid, b.txs, 0);
      assert b.txs[0..] == b.txs;
      CoreChainConserves(c, p, g, ApplyBlock(c, p, CoreChain(g), state, b).state, blocks[1..]);
      BlockSupply(c, p, CoreChain(g), state, b);
    }
  }

  // ----- the two copies -----

  /** On one transfer the copies differ exactly by the guard on `Amount + Fee`. */
  lemma CopiesAgreeOnTx(c: Crypto, g: Address, height: uint64, state: State, tx: Tx, first: bool)
    ensures
      var dry := ApplyTx(c, Validator, height, state, tx, first);
      var core := ApplyTx(c, CoreChain(g), height, state, tx, first);
      && (core.error.None? <==> dry.error.None? && !Wraps(tx))
      && (core.error.None? ==> core == dry)
  {
  }

  lemma {:induction false} CopiesAgreeOnTxs(c: Crypto, g: Address, height: uint64, state: State, txs: seq<Tx>, i: nat)
    requires i <= |txs|
    ensures
      var dry := ApplyFrom(c, Validator, height, state, txs, i);
      var core := ApplyFrom(c, CoreChain(g), height, state, txs, i);
      && (core.error.None? <==> dry.error.None? && WrapCount(txs[i..]) == 0)
      && (core.error.None? ==> core == dry)
    decreases |txs| - i
  {
    if i < |txs| {
      CopiesAgreeOnTx(c, g, height, state, txs[i], i == 0);
      CopiesAgreeOnTxs(c, g, height, ApplyTx(c, Validator, height, state, txs[i], i == 0).state, txs, i + 1);
      assert txs[i..][1..] == txs[i + 1..];
    }
  }

  /** What only the commit demands of a block: its size, and the stricter check of the miner's address. */
  predicate CommitDemands(c: Crypto, b: Block) {
    b.withinSizeLimit && (b.height > 0 ==> c.validAddress(b.miner))
  }

  predicate DryRunTakesMiner(c: Crypto, b: Block) {
    b.height > 0 ==> c.validMiner(b.miner)
  }

  /** The commit is the dry run from the state with the genesis share paid, less the wrapped debits. */
  lemma CopiesAgree(c: Crypto, p: MonetaryPolicy, g: Address, state: State, b: Block)
    ensures
      var paid := CreditGenesis(p, CoreChain(g), b.height, state);
      var dry := ApplyBlock(c, p, Validator, paid.state, b);
      var core := ApplyBlock(c, p, CoreChain(g), state, b);
      && ((core.error.None? && DryRunTakesMiner(c, b)) <==>
          (CommitDemands(c, b) && paid.error.None? && dry.error.None? && WrapCount(b.txs) == 0))
      && (core.error.None? && DryRunTakesMiner(c, b) ==> core.state == dry.state)
  {
    var paid := CreditGenesis(p, CoreChain(g), b.height, state);
    CopiesAgreeOnTxs(c, g, b.height, paid.state, b.txs, 0);
    assert b.txs[0..] == b.txs;
  }

  // ----- one account -----

  /** Everything paid into account `a` by the transactions. */
  function Received(txs: seq<Tx>, a: Address): nat {
    if txs == [] then 0
    else (if txs[0].kind != Other && txs[0].to == a then txs[0].amount else 0) + Received(txs[1..], a)
  }

  /** Everything charged to account `a` by the transactions. */
  function Spent(c: Crypto, txs: seq<Tx>, a: Address): nat {
    if txs == [] then 0
    else (if FromAddress(c, txs[0]) == Some(a) then Debit(txs[0]) else 0) + Spent(c, txs[1..], a)
  }

  /** The nonces of the transfers of sender `a`, in the order they were applied. */
  function NoncesOf(c: Crypto, txs: seq<Tx>, a: Address): seq<uint64> {
    if txs == [] then []
    else (if FromAddress(c, txs[0]) == Some(a) then [txs[0].nonce] else []) + NoncesOf(c, txs[1..], a)
  }

  /** first + 1, first + 2, ... */
  ghost predicate CountsUpFrom(nonces: seq<uint64>, first: int) {
    forall k :: 0 <= k < |nonces| ==> nonces[k] == first + 1 + k
  }

  /** One transaction, seen from one account: its balance, and its nonce, which can never wrap to 0. */
  lemma TxAccount(c: Crypto, copy: Copy, height: uint64, state: State, tx: Tx, first: bool, a: Address)
    requires ApplyTx(c, copy, height, state, tx, first).error.None?
    ensures
      var acct := Get(ApplyTx(c, copy, height, state, tx, first).state, a);
      && acct.balance == Get(state, a).balance + Received([tx], a) - Spent(c, [tx], a)
      && acct.nonce == Get(state, a).nonce + |NoncesOf(c, [tx], a)|
      && CountsUpFrom(NoncesOf(c, [tx], a), Get(state, a).nonce)
  {
    assert [tx][1..] == [];
  }

  lemma {:induction false} TxsAccount(c: Crypto, copy: Copy, height: uint64, state: State, txs: seq<Tx>, i: nat, a: Address)
    requires i <= |txs| && ApplyFrom(c, copy, height, state, txs, i).error.None?
    ensures
      var acct := Get(ApplyFrom(c, copy, height, state, txs, i).state, a);
      && acct.balance == Get(state, a).balance + Received(txs[i..], a) - Spent(c, txs[i..], a)
      && acct.nonce == Get(state, a).nonce + |NoncesOf(c, txs[i..], a)|
      && CountsUpFrom(NoncesOf(c, txs[i..], a), Get(state, a).nonce)
    decreases |txs| - i
  {
    if i < |txs| {
      TxAccount(c, copy, height, state, txs[i], i == 0, a);
      TxsAccount(c, copy, height, ApplyTx(c, copy, height, state, txs[i], i == 0).state, txs, i + 1, a);
      assert txs[i..][1..] == txs[i + 1..];
      assert [txs[i]][1..] == [];
    }
  }

  /** One accepted block, seen from one account. */
  lemma BlockAccount(c: Crypto, p: MonetaryPolicy, copy: Copy, state: State, b: Block, a: Address)
    requires ApplyBlock(c, p, copy, state, b).error.None?
    ensures
      var acct := Get(ApplyBlock(c, p, copy, state, b).state, a);
      && acct.balance == Get(state, a).balance + Received(b.txs, a) - Spent(c, b.txs, a)
                       + (if copy == CoreChain(a) then GenesisReward(p, copy, b.height) else 0)
      && acct.nonce == Get(state, a).nonce + |NoncesOf(c, b.txs, a)|
      && CountsUpFrom(NoncesOf(c, b.txs, a), Get(state, a).nonce)
  {
    TxsAccount(c, copy, b.height, CreditGenesis(p, copy, b.height, state).state, b.txs, 0, a);
    assert b.txs[0..] == b.txs;
  }

  function ChainNonces(c: Crypto, blocks: seq<Block>, a: Address): seq<uint64> {
    if blocks == [] then [] else NoncesOf(c, blocks[0].txs, a) + ChainNonces(c, blocks[1..], a)
  }

  /** Along every accepted chain each sender's transfers carry nonce + 1, nonce + 2, ... without a gap or a repeat. */
  lemma {:induction false} ChainNoncesCountUp(
      c: Crypto, p: MonetaryPolicy, copy: Copy, state: State, blocks: seq<Block>, a: Address)
    requires ApplyChain(c, p, copy, state, blocks).error.None?
    ensures CountsUpFrom(ChainNonces(c, blocks, a), Get(state, a).nonce)
    ensures Get(ApplyChain(c, p, copy, state, blocks).state, a).nonce
         == Get(state, a).nonce + |ChainNonces(c, blocks, a)|
    decreases |blocks|
  {
    if blocks != [] {
      BlockAccount(c, p, copy, state, blocks[0], a);
      ChainNoncesCountUp(c, p, copy, ApplyBlock(c, p, copy, state, blocks[0]).state, blocks[1..], a);
    }
  }

  /** No (sender, nonce) pair is ever applied twice. */
  lemma NoReplay(c: Crypto, p: MonetaryPolicy, copy: Copy, state: State, blocks: seq<Block>, a: Address, j: nat, k: nat)
    requires ApplyChain(c, p, copy, state, blocks).error.None?
    requires j < k < |ChainNonces(c, blocks, a)|
    ensures ChainNonces(c, blocks, a)[j] < ChainNonces(c, blocks, a)[k]
  {
    ChainNoncesCountUp(c, p, copy, state, blocks, a);
  }

  // ----- issuance -----

  /** Blocks at heights first, first + 1, ... */
  ghost predicate AtHeights(blocks: seq<Block>, first: nat) {
    forall k :: 0 <= k < |blocks| ==> blocks[k].height == first + k
  }

  lemma {:induction false} FeesWrappedBelow(txs: seq<Tx>, n: nat)
    requires n <= |txs|
    ensures FeesWrapped(txs, n) <= Fees(txs[..n])
  {
    if n > 1 {
      FeesWrappedBelow(txs, n - 1);
      FeesAppend(txs[..n - 1], txs[n - 1]);
      assert txs[..n] == txs[..n - 1] + [txs[n - 1]];
    }
  }

  lemma {:induction false} FeesAppend(txs: seq<Tx>, tx: Tx)
    ensures Fees(txs + [tx]) == Fees(txs) + (if tx.kind == Transfer then tx.fee else 0)
  {
    if txs != [] {
      FeesAppend(txs[1..], tx);
      assert (txs + [tx])[1..] == txs[1..] + [tx];
    }
  }

  /** Behind the coinbase nothing is minted. */
  lemma {:induction false} MintedOnce(c: Crypto, copy: Copy, height: uint64, state: State, txs: seq<Tx>, i: nat)
    requires 0 < i <= |txs| && ApplyFrom(c, copy, height, state, txs, i).error.None?
    ensures Minted(txs[i..]) == 0
    decreases |txs| - i
  {
    if i < |txs| {
      MintedOnce(c, copy, height, ApplyTx(c, copy, height, state, txs[i], false).state, txs, i + 1);
      assert txs[i..][1..] == txs[i + 1..];
    }
  }

  /** A block pays out at most its reward and the fees it burns. */
  lemma BlockIssuance(c: Crypto, p: MonetaryPolicy, copy: Copy, state: State, b: Block)
    requires p.SharesValid() && b.height > 0
    requires ApplyBlock(c, p, copy, state, b).error.None?
    ensures Minted(b.txs) + GenesisReward(p, copy, b.height) <= RewardAt(p, b.height) + Fees(b.txs)
  {
    var fees := FeesWrapped(b.txs, |b.txs|);
    FeesWrappedBelow(b.txs, |b.txs|);
    assert b.txs[..|b.txs|] == b.txs;
    CoinbaseBound(p, b.height, fees);
    var paid := CreditGenesis(p, copy, b.height, state).state;
    MintedOnce(c, copy, b.height, ApplyTx(c, copy, b.height, paid, b.txs[0], true).state, b.txs, 1);
  }

  lemma BlockGrowth(c: Crypto, p: MonetaryPolicy, copy: Copy, state: State, b: Block)
    requires p.SharesValid() && b.height > 0
    requires ApplyBlock(c, p, copy, state, b).error.None?
    ensures Supply(ApplyBlock(c, p, copy, state, b).state)
         <= Supply(state) + RewardAt(p, b.height) + TWO64 * WrapCount(b.txs)
  {
    BlockIssuance(c, p, copy, state, b);
    BlockSupply(c, p, copy, state, b);
  }

  lemma TotalRewardFront(p: MonetaryPolicy, first: nat, count: nat)
    requires 0 < count && first + count <= TWO64
    ensures TotalReward(p, first, count) == RewardAt(p, first) + TotalReward(p, first + 1, count - 1)
  {
    TotalRewardSplits(p, first, 1, count - 1);
    assert TotalReward(p, first, 0) == 0;
  }

  function ChainRewards(p: MonetaryPolicy, blocks: seq<Block>): nat {
    if blocks == [] then 0 else RewardAt(p, blocks[0].height) + ChainRewards(p, blocks[1..])
  }

  lemma {:induction false} ChainRewardsTotal(p: MonetaryPolicy, blocks: seq<Block>, first: nat)
    requires first + |blocks| <= TWO64 && AtHeights(blocks, first)
    ensures ChainRewards(p, blocks) == TotalReward(p, first, |blocks|)
    decreases |blocks|
  {
    if blocks != [] {
      ChainRewardsTotal(p, blocks[1..], first + 1);
      TotalRewardFront(p, first, |blocks|);
    }
  }

  /** Along every accepted chain the supply grows by at most the rewards, plus 2^64 for every wrapped debit. */
  lemma {:induction false} ChainIssuance(c: Crypto, p: MonetaryPolicy, copy: Copy, state: State, blocks: seq<Block>)
    requires p.SharesValid() && forall b :: b in blocks ==> b.height > 0
    requires ApplyChain(c, p, copy, state, blocks).error.None?
    ensures Supply(ApplyChain(c, p, copy, state, blocks).state)
         <= Supply(state) + ChainRewards(p, blocks) + TWO64 * ChainWraps(blocks)
    decreases |blocks|
  {
    if blocks != [] {
      BlockGrowth(c, p, copy, state, blocks[0]);
      ChainIssuance(c, p, copy, ApplyBlock(c, p, copy, state, blocks[0]).state, blocks[1..]);
    }
  }

  lemma RewardsWithinBound(p: MonetaryPolicy, blocks: seq<Block>, first: nat, years: nat)
    requires first + |blocks| <= TWO64 && AtHeights(blocks, first) && first + |blocks| <= YearStart(years)
    ensures ChainRewards(p, blocks) <= IssuanceBound(p, years)
  {
    ChainRewardsTotal(p, blocks, first);
    TotalRewardSplits(p, 0, first, |blocks|);
    TotalRewardBound(p, first + |blocks|, years);
  }

  /** Supply after the blocks of `years` reward years, for both copies of the rule and every fee share. */
  lemma SupplyBound(
      c: Crypto, p: MonetaryPolicy, copy: Copy, state: State, blocks: seq<Block>, first: nat, years: nat)
    requires p.SharesValid() && 0 < first && first + |blocks| <= TWO64 && AtHeights(blocks, first)
    requires first + |blocks| <= YearStart(years)
    requires ApplyChain(c, p, copy, state, blocks).error.None?
    ensures Supply(ApplyChain(c, p, copy, state, blocks).state)
         <= Supply(state) + IssuanceBound(p, years) + TWO64 * ChainWraps(blocks)
    ensures copy.CoreChain? ==>
      Supply(ApplyChain(c, p, copy, state, blocks).state) <= Supply(state) + IssuanceBound(p, years)
  {
    ChainIssuance(c, p, copy, state, blocks);
    RewardsWithinBound(p, blocks, first, years);
    if copy.CoreChain? {
      CoreChainConserves(c, p, copy.genesis, state, blocks);
    }
  }
}
