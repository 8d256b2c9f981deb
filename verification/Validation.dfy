/**
 Block validation: signature checking one by one and in batches, coinbase economics, and the dry run
 on a copy of the state (blockchain/consensus/validator.go, internal/crypto/crypto.go).
 */
module Validation {
  import opened Machine
  import opened Monetary
  import opened Ledger
  import opened LedgerLaws

  const BATCH_VERIFY_THRESHOLD := 10

  /** `Verify` of one signature. */
  predicate VerifyOne(c: Crypto, key: Bytes, message: Bytes, signature: Bytes) {
    |key| == PUBLIC_KEY_SIZE && c.verify(key, message, signature)
  }

  /** `VerifyBatch`: chunks of ten, filled in place, with no item lost or moved. */
  method VerifyBatch(c: Crypto, keys: seq<Bytes>, messages: seq<Bytes>, signatures: seq<Bytes>)
      returns (results: Option<seq<bool>>)
    ensures results.None? <==> !(|keys| == |messages| == |signatures|)
    ensures results.Some? ==> |results.value| == |keys|
    ensures results.Some? ==>
      forall i :: 0 <= i < |keys| ==> results.value[i] == VerifyOne(c, keys[i], messages[i], signatures[i])
  {
    if |keys| != |messages| || |messages| != |signatures| {
      return None;
    }
    var filled := new bool[|keys|];
    var batchStart := 0;
    while batchStart < |keys|
      invariant 0 <= batchStart <= |keys|
      invariant forall i :: 0 <= i < batchStart ==> filled[i] == VerifyOne(c, keys[i], messages[i], signatures[i])
    {
      var batchEnd := batchStart + BATCH_VERIFY_THRESHOLD;
      if batchEnd > |keys| {
        batchEnd := |keys|;
      }
      for i := batchStart to batchEnd
        invariant forall j :: 0 <= j < i ==> filled[j] == VerifyOne(c, keys[j], messages[j], signatures[j])
      {
        filled[i] := VerifyOne(c, keys[i], messages[i], signatures[i]);
      }
      batchStart := batchEnd;
    }
    return Some(filled[..]);
  }

  /** What the batch path checks of a transfer: the signature only, over the validator's own message. */
  predicate BatchSignatureOk(c: Crypto, tx: Tx, height: uint64) {
    Signs(c, tx, c.batchHash(tx, height))
  }

  /** What one transaction must pass on either path. */
  predicate Passes(c: Crypto, tx: Tx, height: uint64, batched: bool) {
    tx.kind == Transfer ==> if batched then BatchSignatureOk(c, tx, height) else VerifyForConsensus(c, tx, height)
  }

  /** `bad` is the first transaction behind the coinbase that does not pass. */
  ghost predicate FirstFailing(c: Crypto, txs: seq<Tx>, height: uint64, batched: bool, bad: Option<nat>) {
    match bad
    case None => forall i :: 0 < i < |txs| ==> Passes(c, txs[i], height, batched)
    case Some(k) =>
      && 0 < k < |txs|
      && !Passes(c, txs[k], height, batched)
      && forall i :: 0 < i < k ==> Passes(c, txs[i], height, batched)
  }

  datatype Gathered = Gathered(keys: seq<Bytes>, messages: seq<Bytes>, signatures: seq<Bytes>, indices: seq<nat>)

  /** The gathered items are transfers below `n`, each under its own index, in increasing order. */
  ghost predicate GatheredFrom(c: Crypto, txs: seq<Tx>, height: uint64, n: nat, g: Gathered)
    requires n <= |txs|
  {
    && |g.keys| == |g.messages| == |g.signatures| == |g.indices|
    && (forall k :: 0 <= k < |g.indices| ==> 0 < g.indices[k] < n)
    && (forall j, k :: 0 <= j < k < |g.indices| ==> g.indices[j] < g.indices[k])
    && forall k :: 0 <= k < |g.indices| ==>
         Passes(c, txs[g.indices[k]], height, true) == VerifyOne(c, g.keys[k], g.messages[k], g.signatures[k])
  }

  /** First loop of the batch path: settle what needs no signature check, gather the rest. */
  method Gather(c: Crypto, txs: seq<Tx>, height: uint64, results: array<bool>) returns (g: Gathered)
    requires results.Length == |txs| > 0 && results[0]
    modifies results
    ensures results[0]
    ensures GatheredFrom(c, txs, height, |txs|, g)
    ensures forall j :: 0 < j < |txs| && j !in g.indices ==> results[j] == Passes(c, txs[j], height, true)
  {
    g := Gathered([], [], [], []);
    for i := 1 to |txs|
      invariant results[0]
      invariant GatheredFrom(c, txs, height, i, g)
      invariant forall j :: 0 < j < i && j !in g.indices ==> results[j] == Passes(c, txs[j], height, true)
    {
      var tx := txs[i];
      if tx.kind != Transfer {
        results[i] := true;
      } else if |tx.fromPubKey| != PUBLIC_KEY_SIZE || |tx.signature| != SIGNATURE_SIZE {
        results[i] := false;
      } else {
        var h := c.batchHash(tx, height);
        if h.None? {
          results[i] := false;
        } else {
          g := Gathered(g.keys + [tx.fromPubKey], g.messages + [h.value], g.signatures + [tx.signature],
                        g.indices + [i]);
        }
      }
    }
  }

  /** Last loop of the batch path: every verdict goes back under its own index. */
  method CheckInBatch(c: Crypto, txs: seq<Tx>, height: uint64) returns (results: array<bool>)
    requires |txs| > 0
    ensures fresh(results) && results.Length == |txs| && results[0]
    ensures forall i :: 0 < i < |txs| ==> results[i] == Passes(c, txs[i], height, true)
  {
    results := new bool[|txs|](_ => false);
    results[0] := true;
    var g := Gather(c, txs, height, results);
    if |g.keys| > 0 {
      var batch := VerifyBatch(c, g.keys, g.messages, g.signatures);
      for k := 0 to |g.indices|
        invariant results[0]
        invariant forall i :: 0 < i < |txs| && i !in g.indices[k..] ==> results[i] == Passes(c, txs[i], height, true)
      {
        results[g.indices[k]] := batch.value[k];
        assert g.indices[k..] == [g.indices[k]] + g.indices[k + 1..];
      }
    }
  }

  /** `verifyTransactionsBatch`: over ten transactions in a batch; either path reports the first one its check refuses. */
  method VerifyTransactions(c: Crypto, txs: seq<Tx>, height: uint64) returns (bad: Option<nat>)
    requires |txs| > 0
    ensures FirstFailing(c, txs, height, |txs| > 10, bad)
  {
    var results: array<bool>;
    if |txs| <= BATCH_VERIFY_THRESHOLD {
      results := new bool[|txs|](_ => false);
      results[0] := true;
      for i := 1 to |txs|
        invariant results[0]
        invariant forall j :: 0 < j < i ==> results[j] == Passes(c, txs[j], height, false)
      {
        results[i] := txs[i].kind != Transfer || VerifyForConsensus(c, txs[i], height);
      }
    } else {
      results := CheckInBatch(c, txs, height);
    }
    for i := 0 to |txs|
      invariant forall j :: 0 < j < i ==> Passes(c, txs[j], height, |txs| > BATCH_VERIFY_THRESHOLD)
    {
      if !results[i] {
        return Some(i);
      }
    }
    return None;
  }

  predicate PathsAgree(c: Crypto, tx: Tx, height: uint64) {
    Passes(c, tx, height, false) == Passes(c, tx, height, true)
  }

  /**
   On a transfer with its fields in order the paths agree exactly when its signature is good for both messages or for
   neither; on any other exactly when it is not good for the batch message.
   */
  lemma PathsAgreeIff(c: Crypto, tx: Tx, height: uint64)
    requires tx.kind == Transfer
    ensures FieldsOk(c, tx) ==>
      (PathsAgree(c, tx, height) <==>
       Signs(c, tx, c.signingHash(tx, height)) == Signs(c, tx, c.batchHash(tx, height)))
    ensures !FieldsOk(c, tx) ==> (PathsAgree(c, tx, height) <==> !Signs(c, tx, c.batchHash(tx, height)))
  {
  }

  /** Neither path has failed before this index. */
  predicate Undecided(single: Option<nat>, batch: Option<nat>, i: nat) {
    (single.Some? ==> i <= single.value) && (batch.Some? ==> i <= batch.value)
  }

  /** The paths report the same index exactly when they agree on every transaction up to where either one fails. */
  lemma FirstFailuresAgreeIff(c: Crypto, txs: seq<Tx>, height: uint64, single: Option<nat>, batch: Option<nat>)
    requires FirstFailing(c, txs, height, false, single) && FirstFailing(c, txs, height, true, batch)
    ensures single == batch
       <==> forall i :: 0 < i < |txs| && Undecided(single, batch, i) ==> PathsAgree(c, txs[i], height)
  {
    if single != batch {
      var i := if single.None? || (batch.Some? && batch.value < single.value) then batch.value else single.value;
      assert 0 < i < |txs| && Undecided(single, batch, i) && !PathsAgree(c, txs[i], height);
    }
  }

  // ----- the whole of ValidateBlock -----

  datatype Rejection =
    | BadHeader | NoTxs | CoinbasePosition | WrongChainId(at: nat) | BadSignature(at: nat)
    | FeeSumOverflow | BadEconomics(reason: Error) | BadStateTransition(reason: Error)

  function DefaultChainIds(txs: seq<Tx>, chainId: uint64): (r: seq<Tx>)
    ensures |r| == |txs| && forall i :: 0 <= i < |txs| ==> r[i] == WithChainId(txs[i], chainId)
  {
    seq(|txs|, i requires 0 <= i < |txs| => WithChainId(txs[i], chainId))
  }

  /** The guarded fee sum of `validateCoinbaseEconomics`. */
  method SumFees(txs: seq<Tx>) returns (total: Option<uint64>)
    requires |txs| > 0
    ensures total.Some? <==> Fees(txs[1..]) < TWO64
    ensures total.Some? ==> total.value == Fees(txs[1..])
  {
    var sum: uint64 := 0;
    for i := 1 to |txs|
      invariant sum == Fees(txs[1..i])
    {
      FeesAppend(txs[1..i], txs[i]);
      assert txs[1..i] + [txs[i]] == txs[1..i + 1];
      FeesPrefix(txs, i + 1);
      if txs[i].kind == Transfer {
        if sum > MAX_UINT64 - txs[i].fee {
          return None;
        }
        sum := sum + txs[i].fee;
      }
    }
    assert txs[1..|txs|] == txs[1..];
    return Some(sum);
  }

  lemma {:induction false} FeesConcat(a: seq<Tx>, b: seq<Tx>)
    ensures Fees(a + b) == Fees(a) + Fees(b)
  {
    if a == [] {
      assert a + b == b;
    } else {
      FeesConcat(a[1..], b);
      assert (a + b)[1..] == a[1..] + b;
    }
  }

  lemma FeesPrefix(txs: seq<Tx>, n: nat)
    requires 1 <= n <= |txs|
    ensures Fees(txs[1..n]) <= Fees(txs[1..])
  {
    FeesConcat(txs[1..n], txs[n..]);
    assert txs[1..] == txs[1..n] + txs[n..];
  }

  /** The machine sum equals the exact one when it fits. */
  lemma {:induction false} FeesWrappedExact(txs: seq<Tx>, n: nat)
    requires 1 <= n <= |txs| && Fees(txs[1..n]) < TWO64
    ensures FeesWrapped(txs, n) == Fees(txs[1..n])
  {
    if n > 1 {
      FeesAppend(txs[1..n - 1], txs[n - 1]);
      assert txs[1..n] == txs[1..n - 1] + [txs[n - 1]];
      FeesWrappedExact(txs, n - 1);
    }
  }

  function Defaulted(b: Block, chainId: uint64): Block {
    b.(txs := DefaultChainIds(b.txs, chainId))
  }

  /** What `validateTransactions` demands, with the signature path as a parameter. */
  ghost predicate TransactionsValid(c: Crypto, p: MonetaryPolicy, chainId: uint64, b: Block, batched: bool) {
    && |b.txs| > 0
    && b.txs[0].kind == Coinbase
    && var b' := Defaulted(b, chainId);
       && (forall i :: 0 <= i < |b'.txs| ==> b'.txs[i].chainId == chainId)
       && FirstFailing(c, b'.txs, b.height, batched, None)
       && (b.height > 0 ==> Fees(b'.txs[1..]) < TWO64 && CoinbaseError(c, p, Validator, b').None?)
  }

  /** Whether the block is accepted. */
  ghost predicate Accepts(c: Crypto, p: MonetaryPolicy, chainId: uint64, headerOk: bool,
                          state: Option<State>, b: Block, batched: bool) {
    && headerOk
    && TransactionsValid(c, p, chainId, b, batched)
    && (state.Some? && b.height > 0 ==>
          ApplyBlock(c, p, Validator, state.value, Defaulted(b, chainId)).error.None?)
  }

  method CheckChainIds(given: seq<Tx>, chainId: uint64) returns (txs: seq<Tx>, wrong: Option<nat>)
    ensures wrong.None? <==> forall i :: 0 <= i < |given| ==> WithChainId(given[i], chainId).chainId == chainId
    ensures wrong.None? ==> txs == DefaultChainIds(given, chainId)
    ensures wrong.Some? ==> wrong.value < |given| && given[wrong.value].chainId !in {0, chainId}
  {
    txs := given;
    for i := 0 to |given|
      invariant |txs| == |given|
      invariant forall j :: 0 <= j < i ==> txs[j] == WithChainId(given[j], chainId) && txs[j].chainId == chainId
      invariant forall j :: i <= j < |txs| ==> txs[j] == given[j]
    {
      if txs[i].chainId == 0 {
        txs := txs[i := txs[i].(chainId := chainId)];
      }
      if txs[i].chainId != chainId {
        assert WithChainId(given[i], chainId).chainId != chainId;
        return txs, Some(i);
      }
    }
    return txs, None;
  }

  /** `validateCoinbaseEconomics`: unlike the dry run it refuses a fee sum beyond uint64. */
  method ValidateCoinbaseEconomics(c: Crypto, p: MonetaryPolicy, b: Block) returns (rejection: Option<Rejection>)
    requires |b.txs| > 0
    ensures rejection.None? <==> Fees(b.txs[1..]) < TWO64 && CoinbaseError(c, p, Validator, b).None?
    ensures rejection == Some(FeeSumOverflow) ==> Fees(b.txs[1..]) >= TWO64
    ensures rejection.Some? ==> rejection.value.FeeSumOverflow? || rejection.value.BadEconomics?
  {
    if !c.validMiner(b.miner) {
      return Some(BadEconomics(InvalidMiner));
    }
    var fees := SumFees(b.txs);
    if fees.None? {
      return Some(FeeSumOverflow);
    }
    assert b.txs[1..|b.txs|] == b.txs[1..];
    FeesWrappedExact(b.txs, |b.txs|);
    var reward, _ := BlockReward(p, b.height);
    var expected := Add(ShareOf(reward, p.minerRewardShare), MinerFeeAmount(p, fees.value));
    if b.txs[0].to != b.miner {
      return Some(BadEconomics(CoinbaseNotToMiner));
    }
    if b.txs[0].amount != expected {
      return Some(BadEconomics(BadCoinbaseAmount));
    }
    return None;
  }

  /** A rejection names a transaction that deserves it. */
  ghost predicate RejectionTrue(c: Crypto, chainId: uint64, b: Block, rejection: Rejection) {
    match rejection
    case WrongChainId(at) => at < |b.txs| && b.txs[at].chainId !in {0, chainId}
    case BadSignature(at) => FirstFailing(c, DefaultChainIds(b.txs, chainId), b.height, |b.txs| > 10, Some(at))
    case FeeSumOverflow => |b.txs| > 0 && Fees(DefaultChainIds(b.txs, chainId)[1..]) >= TWO64
    case _ => true
  }

  method ValidateTransactions(c: Crypto, p: MonetaryPolicy, chainId: uint64, b: Block)
      returns (checked: Block, rejection: Option<Rejection>)
    ensures rejection.None? <==> TransactionsValid(c, p, chainId, b, |b.txs| > 10)
    ensures rejection.None? ==> checked == Defaulted(b, chainId)
    ensures rejection == Some(NoTxs) <==> |b.txs| == 0
    ensures rejection == Some(CoinbasePosition) <==> |b.txs| > 0 && b.txs[0].kind != Coinbase
    ensures rejection.Some? ==> RejectionTrue(c, chainId, b, rejection.value)
  {
    checked := b;
    if |b.txs| == 0 {
      return b, Some(NoTxs);
    }
    if b.txs[0].kind != Coinbase {
      return b, Some(CoinbasePosition);
    }
    var txs, wrong := CheckChainIds(b.txs, chainId);
    if wrong.Some? {
      return b, Some(WrongChainId(wrong.value));
    }
    var bad := VerifyTransactions(c, txs, b.height);
    if bad.Some? {
      return b, Some(BadSignature(bad.value));
    }
    checked, rejection := b.(txs := txs), None;
    if b.height > 0 {
      rejection := ValidateCoinbaseEconomics(c, p, checked);
    }
  }

  /** `ValidateBlock`: the given state is only read, the dry run works on a copy of it. */
  method ValidateBlock(c: Crypto, p: MonetaryPolicy, chainId: uint64, headerOk: bool, world: WorldState?, b: Block)
      returns (rejection: Option<Rejection>)
    ensures rejection.None? <==> Accepts(c, p, chainId, headerOk,
      if world == null then None else Some(world.accounts), b, |b.txs| > 10)
  {
    if !headerOk {
      return Some(BadHeader);
    }
    var checked;
    checked, rejection := ValidateTransactions(c, p, chainId, b);
    if rejection.Some? {
      return;
    }
    if world != null && b.height > 0 {
      var testState := new WorldState(world.accounts);
      var error := testState.ApplyBlockToState(c, p, Validator, checked);
      if error.Some? {
        return Some(BadStateTransition(error.value));
      }
    }
  }

  /** Dry run and commit verify every transfer again. */
  lemma {:induction false} AppliedVerifies(c: Crypto, copy: Copy, height: uint64, state: State, txs: seq<Tx>, i: nat)
    requires i <= |txs| && ApplyFrom(c, copy, height, state, txs, i).error.None?
    ensures forall j :: i <= j < |txs| ==> Passes(c, txs[j], height, false)
    decreases |txs| - i
  {
    if i < |txs| {
      AppliedVerifies(c, copy, height, ApplyTx(c, copy, height, state, txs[i], i == 0).state, txs, i + 1);
    }
  }

  // ----- what the choice of path decides -----

  /** Every transfer's signature is good for the batch message. */
  ghost predicate AllBatchSigned(c: Crypto, chainId: uint64, b: Block) {
    FirstFailing(c, DefaultChainIds(b.txs, chainId), b.height, true, None)
  }

  /** Every transfer passes the single check. */
  ghost predicate AllVerified(c: Crypto, chainId: uint64, b: Block) {
    FirstFailing(c, DefaultChainIds(b.txs, chainId), b.height, false, None)
  }

  /** Everything but the signatures, and the dry run if there is a state. */
  ghost predicate OtherwiseValid(c: Crypto, p: MonetaryPolicy, chainId: uint64, headerOk: bool, b: Block) {
    && headerOk && |b.txs| > 0 && b.txs[0].kind == Coinbase
    && var b' := Defaulted(b, chainId);
       && (forall i :: 0 <= i < |b'.txs| ==> b'.txs[i].chainId == chainId)
       && (b.height > 0 ==> Fees(b'.txs[1..]) < TWO64 && CoinbaseError(c, p, Validator, b').None?)
  }

  /** With a state, the batch path accepts what the single path accepts and whose signatures are good for both messages. */
  lemma WithStateBothMessages(c: Crypto, p: MonetaryPolicy, chainId: uint64, headerOk: bool, state: State, b: Block)
    requires b.height > 0
    ensures Accepts(c, p, chainId, headerOk, Some(state), b, true)
       <==> Accepts(c, p, chainId, headerOk, Some(state), b, false) && AllBatchSigned(c, chainId, b)
    ensures Accepts(c, p, chainId, headerOk, Some(state), b, true) ==> AllVerified(c, chainId, b)
  {
    var b' := Defaulted(b, chainId);
    if ApplyBlock(c, p, Validator, state, b').error.None? {
      AppliedVerifies(c, Validator, b.height, state, b'.txs, 0);
    }
  }

  /** So the path shows exactly on the blocks the single path accepts with some signature not good for the batch message. */
  lemma PathShowsIff(c: Crypto, p: MonetaryPolicy, chainId: uint64, headerOk: bool, state: State, b: Block)
    requires b.height > 0
    ensures Accepts(c, p, chainId, headerOk, Some(state), b, true)
              != Accepts(c, p, chainId, headerOk, Some(state), b, false)
       <==> Accepts(c, p, chainId, headerOk, Some(state), b, false) && !AllBatchSigned(c, chainId, b)
  {
    WithStateBothMessages(c, p, chainId, headerOk, state, b);
  }

  /** Without a state each path decides alone; they part exactly where one set of signatures is good and the other not. */
  lemma PathShowsWithoutStateIff(c: Crypto, p: MonetaryPolicy, chainId: uint64, headerOk: bool, b: Block)
    ensures Accepts(c, p, chainId, headerOk, None, b, true)
       <==> OtherwiseValid(c, p, chainId, headerOk, b) && AllBatchSigned(c, chainId, b)
    ensures Accepts(c, p, chainId, headerOk, None, b, true) != Accepts(c, p, chainId, headerOk, None, b, false)
       <==> OtherwiseValid(c, p, chainId, headerOk, b)
              && AllBatchSigned(c, chainId, b) != AllVerified(c, chainId, b)
  {
  }

  /** No signature is good for two messages. */
  ghost predicate Binding(c: Crypto) {
    forall key, m, m', signature :: c.verify(key, m, signature) && c.verify(key, m', signature) ==> m == m'
  }

  /** The two hashes of a transaction never coincide; one covers the height, the other does not. */
  ghost predicate HashesDiffer(c: Crypto) {
    forall tx, height :: c.signingHash(tx, height).Some? ==> c.signingHash(tx, height) != c.batchHash(tx, height)
  }

  /** Then no block over the threshold with a transfer in it is accepted with a state, by any signer. */
  lemma LargeBlocksRefused(
      c: Crypto, p: MonetaryPolicy, chainId: uint64, headerOk: bool, state: State, b: Block, k: nat)
    requires Binding(c) && HashesDiffer(c)
    requires b.height > 0 && |b.txs| > 10 && 0 < k < |b.txs| && b.txs[k].kind == Transfer
    ensures !Accepts(c, p, chainId, headerOk, Some(state), b, |b.txs| > 10)
  {
    WithStateBothMessages(c, p, chainId, headerOk, state, b);
    if Accepts(c, p, chainId, headerOk, Some(state), b, true) {
      var tx := DefaultChainIds(b.txs, chainId)[k];
      assert tx.kind == Transfer && Passes(c, tx, b.height, false) && Passes(c, tx, b.height, true);
      OneMessage(c, tx, c.signingHash(tx, b.height), c.batchHash(tx, b.height));
    }
  }

  /** Nor is one both accepted without a state, as blocks from peers are, and then committed. */
  lemma LargeBlocksNotCommitted(
      c: Crypto, p: MonetaryPolicy, chainId: uint64, headerOk: bool, g: Address, state: State, b: Block, k: nat)
    requires Binding(c) && HashesDiffer(c)
    requires |b.txs| > 10 && 0 < k < |b.txs| && b.txs[k].kind == Transfer
    ensures !(Accepts(c, p, chainId, headerOk, None, b, |b.txs| > 10)
              && ApplyBlock(c, p, CoreChain(g), state, Defaulted(b, chainId)).error.None?)
  {
    var b' := Defaulted(b, chainId);
    if Accepts(c, p, chainId, headerOk, None, b, true) && ApplyBlock(c, p, CoreChain(g), state, b').error.None? {
      var paid := CreditGenesis(p, CoreChain(g), b.height, state).state;
      AppliedVerifies(c, CoreChain(g), b.height, paid, b'.txs, 0);
      var tx := b'.txs[k];
      assert tx.kind == Transfer && Passes(c, tx, b.height, false) && Passes(c, tx, b.height, true);
      OneMessage(c, tx, c.signingHash(tx, b.height), c.batchHash(tx, b.height));
    }
  }

  lemma OneMessage(c: Crypto, tx: Tx, m: Option<Bytes>, m': Option<Bytes>)
    requires Binding(c) && Signs(c, tx, m) && Signs(c, tx, m')
    ensures m == m'
  {
  }
}
