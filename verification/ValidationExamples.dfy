/** Blocks over the batch threshold on which the two signature paths part. */
module ValidationExamples {
  import opened Machine
  import opened Monetary
  import opened Ledger
  import opened LedgerLaws
  import opened LedgerExamples
  import opened Validation

  /** Signatures are good for the message of the single check, and the batch has another message. */
  function OneMessageOnly(sender: Address): Crypto {
    Permissive(sender).(verify := (k, m, s) => m == [1], signingHash := (t, h) => Some([1]), batchHash := (t, h) => Some([0]))
  }

  function TenTimes(miner: Address, to: Address, amount: uint64): (txs: seq<Tx>)
    ensures |txs| == 11 && txs[0] == Tx(Coinbase, 1, [], miner, 100, 0, 0, [])
    ensures forall i :: 1 <= i < 11 ==> txs[i] == SignedTransfer(to, amount, 0, i)
  {
    [Tx(Coinbase, 1, [], miner, 100, 0, 0, [])]
    + seq(10, i requires 0 <= i < 10 => SignedTransfer(to, amount, 0, i + 1))
  }

  /** A coinbase and ten transfers of the same amount. */
  function TenTransfers(miner: Address, to: Address, amount: uint64): Block {
    Block(1, miner, TenTimes(miner, to, amount), true)
  }

  lemma {:induction false} NoFees(txs: seq<Tx>)
    requires forall i :: 0 <= i < |txs| ==> txs[i].fee == 0
    ensures Fees(txs) == 0
  {
    if txs != [] {
      NoFees(txs[1..]);
    }
  }

  lemma {:induction false} NoFeesWrapped(txs: seq<Tx>, n: nat)
    requires n <= |txs| && forall i :: 0 <= i < |txs| ==> txs[i].fee == 0
    ensures FeesWrapped(txs, n) == 0
  {
    if n > 1 {
      NoFeesWrapped(txs, n - 1);
    }
  }

  lemma PlainBlockIsOtherwiseValid(c: Crypto, b: Block)
    requires |b.txs| > 0 && b.txs[0].kind == Coinbase && b.height == 1 && c.validMiner(b.miner)
    requires b.txs[0].to == b.miner && b.txs[0].amount == 100
    requires forall i :: 0 <= i < |b.txs| ==> b.txs[i].fee == 0 && b.txs[i].chainId == 1
    ensures DefaultChainIds(b.txs, 1) == b.txs
    ensures OtherwiseValid(c, EXAMPLE_POLICY, 1, true, b)
  {
    assert DefaultChainIds(b.txs, 1) == b.txs;
    NoFees(b.txs[1..]);
    NoFeesWrapped(b.txs, |b.txs|);
    assert RewardAt(EXAMPLE_POLICY, 1) == 100;
  }

  /** The accounts when the transfers before index i are applied. */
  function Halfway(miner: Address, from: Address, to: Address, i: nat): State
    requires 1 <= i <= 11
  {
    map[miner := Account(100, 0), from := Account(11 - i, i - 1), to := Account(i - 1, 0)]
  }

  lemma {:induction false} TransfersApply(miner: Address, from: Address, to: Address, i: nat)
    requires 1 <= i <= 11 && miner != from && miner != to && from != to
    ensures ApplyFrom(OneMessageOnly(from), Validator, 1, Halfway(miner, from, to, i), TenTimes(miner, to, 1), i).error.None?
    decreases 11 - i
  {
    var c, txs := OneMessageOnly(from), TenTimes(miner, to, 1);
    if i < 11 {
      assert txs[i] == SignedTransfer(to, 1, 0, i);
      assert FromAddress(c, txs[i]) == Some(from);
      assert ApplyTransfer(c, Validator, 1, Halfway(miner, from, to, i), txs[i])
          == Outcome(Halfway(miner, from, to, i + 1), None);
      TransfersApply(miner, from, to, i + 1);
    }
  }

  function Funded(from: Address, to: Address): State {
    map[from := Account(10, 0), to := Account(0, 0)]
  }

  lemma OrdinaryBlockApplies(miner: Address, from: Address, to: Address)
    requires miner != from && miner != to && from != to
    ensures ApplyBlock(OneMessageOnly(from), EXAMPLE_POLICY, Validator, Funded(from, to), TenTransfers(miner, to, 1)).error.None?
  {
    var c, b := OneMessageOnly(from), TenTransfers(miner, to, 1);
    NoFeesWrapped(b.txs, |b.txs|);
    assert ApplyTx(c, Validator, 1, Funded(from, to), b.txs[0], true) == Outcome(Halfway(miner, from, to, 1), None);
    TransfersApply(miner, from, to, 1);
  }

  /** An ordinary block of eleven transactions: the single path and the dry run accept it, the batch path does not. */
  lemma OrdinaryBlockRefused(miner: Address, from: Address, to: Address)
    requires miner != from && miner != to && from != to
    ensures
      var c, b := OneMessageOnly(from), TenTransfers(miner, to, 1);
      && |b.txs| > BATCH_VERIFY_THRESHOLD
      && Accepts(c, EXAMPLE_POLICY, 1, true, Some(Funded(from, to)), b, false)
      && !Accepts(c, EXAMPLE_POLICY, 1, true, Some(Funded(from, to)), b, true)
  {
    var c, b := OneMessageOnly(from), TenTransfers(miner, to, 1);
    PlainBlockIsOtherwiseValid(c, b);
    OrdinaryBlockApplies(miner, from, to);
    AppliedVerifies(c, Validator, 1, Funded(from, to), b.txs, 0);
    assert b.txs[1].kind == Transfer && !Passes(c, b.txs[1], 1, true);
  }

  /** A bad field and a good signature: without a state the batch path accepts the empty transfers the single one refuses. */
  lemma BadFieldAccepted(miner: Address, from: Address, to: Address)
    ensures
      var c, b := Permissive(from), TenTransfers(miner, to, 0);
      && |b.txs| > BATCH_VERIFY_THRESHOLD
      && Accepts(c, EXAMPLE_POLICY, 1, true, None, b, true)
      && !Accepts(c, EXAMPLE_POLICY, 1, true, None, b, false)
  {
    var c, b := Permissive(from), TenTransfers(miner, to, 0);
    PlainBlockIsOtherwiseValid(c, b);
    PathShowsWithoutStateIff(c, EXAMPLE_POLICY, 1, true, b);
    forall i | 0 < i < |b.txs| ensures Passes(c, b.txs[i], 1, true) {
      WellSigned(from, to, i);
    }
    WellSigned(from, to, 1);
  }

  lemma WellSigned(from: Address, to: Address, nonce: uint64)
    ensures Passes(Permissive(from), SignedTransfer(to, 0, 0, nonce), 1, true)
    ensures !Passes(Permissive(from), SignedTransfer(to, 0, 0, nonce), 1, false)
  {
  }
}
