/** Concrete inputs on which the ledger's promises fail or hold. */
module LedgerExamples {
  import opened Machine
  import opened Monetary
  import opened Ledger
  import opened LedgerLaws

  /** A signature scheme that accepts everything, with one sender. */
  function Permissive(sender: Address): Crypto {
    Crypto((k, m, s) => true, (t, h) => Some([]), (t, h) => Some([]), k => sender, a => true, a => true)
  }

  /** A transfer in that scheme. */
  function SignedTransfer(to: Address, amount: uint64, fee: uint64, nonce: uint64): Tx {
    Tx(Transfer, 1, seq(PUBLIC_KEY_SIZE, i => 0), to, amount, fee, nonce, seq(SIGNATURE_SIZE, i => 0))
  }

  lemma SignedTransferVerifies(sender: Address, to: Address, amount: uint64, fee: uint64, nonce: uint64, height: uint64)
    requires amount > 0 && nonce > 0
    ensures VerifyForConsensus(Permissive(sender), SignedTransfer(to, amount, fee, nonce), height)
    ensures FromAddress(Permissive(sender), SignedTransfer(to, amount, fee, nonce)) == Some(sender)
  {
  }

  lemma ApplyTwo(c: Crypto, copy: Copy, height: uint64, state: State, txs: seq<Tx>)
    requires |txs| == 2
    ensures
      var o := ApplyTx(c, copy, height, state, txs[0], true);
      ApplyFrom(c, copy, height, state, txs, 0)
        == if o.error.Some? then o else ApplyTx(c, copy, height, o.state, txs[1], false)
  {
    var o := ApplyTx(c, copy, height, state, txs[0], true);
    var o' := ApplyTx(c, copy, height, o.state, txs[1], false);
    assert ApplyFrom(c, copy, height, o'.state, txs, 2) == Outcome(o'.state, None);
    assert ApplyFrom(c, copy, height, o.state, txs, 1) == o';
  }

  /** A block at height 1 whose only transfer moves 2^64 - 1 with fee 1. */
  function WrappingBlock(): Block {
    Block(1, "miner", [Tx(Coinbase, 1, [], "miner", 100, 0, 0, []), SignedTransfer("bob", MAX_UINT64, 1, 1)], true)
  }

  const EXAMPLE_POLICY := MonetaryPolicy(100, 1, 0, 100, 0)

  lemma WrappingBlockAccepted()
    ensures ApplyBlock(Permissive("alice"), EXAMPLE_POLICY, Validator, map[], WrappingBlock()).error.None?
  {
    var c, b := Permissive("alice"), WrappingBlock();
    assert FeesWrapped(b.txs, 1) == 0;
    SignedTransferVerifies("alice", "bob", MAX_UINT64, 1, 1, 1);
    var s1 := map["miner" := Account(100, 0)];
    var s2 := s1["alice" := Account(0, 1)]["bob" := Account(MAX_UINT64, 0)];
    assert ApplyTx(c, Validator, 1, map[], b.txs[0], true) == Outcome(s1, None);
    assert ApplyTransfer(c, Validator, 1, s1, b.txs[1]) == Outcome(s2, None);
    ApplyTwo(c, Validator, 1, map[], b.txs);
  }

  /** Conservation does fail in the validator: the transfer is charged nothing. */
  lemma ConservationFails()
    ensures
      var o := ApplyBlock(Permissive("alice"), EXAMPLE_POLICY, Validator, map[], WrappingBlock());
      && o.error.None?
      && Supply(o.state) == Supply(map[]) + Minted(WrappingBlock().txs) - Fees(WrappingBlock().txs) + TWO64
  {
    WrappingBlockAccepted();
    BlockSupply(Permissive("alice"), EXAMPLE_POLICY, Validator, map[], WrappingBlock());
    var txs := WrappingBlock().txs;
    assert txs[1..] == [txs[1]] && [txs[1]][1..] == [];
  }

  /** Shares as shipped: 99 percent to the miner, one to the genesis address. */
  const SHIPPED_SHARES := MonetaryPolicy(100, 1, 0, 99, 1)

  /** A block in which the genesis address spends the reward it is paid in that block. */
  function GenesisSpends(miner: Address, to: Address): Block {
    Block(1, miner, [Tx(Coinbase, 1, [], miner, 99, 0, 0, []), SignedTransfer(to, 1, 0, 1)], true)
  }

  /** There the copies differ: the commit accepts it and the dry run finds the funds missing. */
  lemma CopiesDiffer(g: Address, miner: Address, to: Address)
    requires g != miner && g != to && miner != to
    ensures
      var c, b := Permissive(g), GenesisSpends(miner, to);
      && ApplyBlock(c, SHIPPED_SHARES, CoreChain(g), map[], b).error.None?
      && ApplyBlock(c, SHIPPED_SHARES, Validator, map[], b).error == Some(InsufficientFunds)
  {
    CommitAccepts(g, miner, to);
    DryRunRefuses(g, miner, to);
  }

  lemma CommitAccepts(g: Address, miner: Address, to: Address)
    requires g != miner && g != to && miner != to
    ensures ApplyBlock(Permissive(g), SHIPPED_SHARES, CoreChain(g), map[], GenesisSpends(miner, to)).error.None?
  {
    var c, b, copy := Permissive(g), GenesisSpends(miner, to), CoreChain(g);
    SignedTransferVerifies(g, to, 1, 0, 1, 1);
    assert FeesWrapped(b.txs, 1) == 0;
    var s0 := map[g := Account(1, 0)];
    var s1 := s0[miner := Account(99, 0)];
    assert RewardAt(SHIPPED_SHARES, 1) == 100;
    assert CreditGenesis(SHIPPED_SHARES, copy, 1, map[]) == Outcome(s0, None);
    assert ApplyTx(c, copy, 1, s0, b.txs[0], true) == Outcome(s1, None);
    assert ApplyTransfer(c, copy, 1, s1, b.txs[1]).error.None?;
    ApplyTwo(c, copy, 1, s0, b.txs);
  }

  lemma DryRunRefuses(g: Address, miner: Address, to: Address)
    requires g != miner && g != to && miner != to
    ensures ApplyBlock(Permissive(g), SHIPPED_SHARES, Validator, map[], GenesisSpends(miner, to)).error
         == Some(InsufficientFunds)
  {
    var c, b := Permissive(g), GenesisSpends(miner, to);
    SignedTransferVerifies(g, to, 1, 0, 1, 1);
    assert FeesWrapped(b.txs, 1) == 0;
    var s1 := map[miner := Account(99, 0)];
    assert ApplyTx(c, Validator, 1, map[], b.txs[0], true) == Outcome(s1, None);
    assert ApplyTransfer(c, Validator, 1, s1, b.txs[1]).error == Some(InsufficientFunds);
    ApplyTwo(c, Validator, 1, map[], b.txs);
  }
}
