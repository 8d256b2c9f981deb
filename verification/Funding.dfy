/** When a list of transactions meets the ledger's funds check, and what that means for a selection. */
module Funding {
  import opened Machine
  import opened Monetary
  import opened Ledger
  import opened LedgerLaws
  import opened Selection

  /** What the sender of the k-th is charged up to it is covered by their balance and what they received before it. */
  ghost predicate FundedAt(c: Crypto, state: State, txs: seq<Tx>, k: nat)
    requires k < |txs|
  {
    match FromAddress(c, txs[k])
    case None => true
    case Some(a) => Spent(c, txs[..k + 1], a) <= Get(state, a).balance + Received(txs[..k], a)
  }

  ghost predicate Funded(c: Crypto, state: State, txs: seq<Tx>) {
    forall k :: 0 <= k < |txs| ==> FundedAt(c, state, txs, k)
  }

  lemma FundedFirst(c: Crypto, state: State, txs: seq<Tx>)
    requires txs != []
    ensures FundedAt(c, state, txs, 0) <==>
      (FromAddress(c, txs[0]).Some? ==> Debit(txs[0]) <= Get(state, FromAddress(c, txs[0]).value).balance)
  {
    assert txs[..1] == [txs[0]] && [txs[0]][1..] == [] && txs[..0] == [];
    if FromAddress(c, txs[0]).Some? {
      var a := FromAddress(c, txs[0]).value;
      assert Spent(c, [txs[0]], a) == Debit(txs[0]) && Received([], a) == 0;
    }
  }

  lemma FundedLater(c: Crypto, copy: Copy, height: uint64, state: State, txs: seq<Tx>, first: bool, k: nat)
    requires k + 1 < |txs| && ApplyTx(c, copy, height, state, txs[0], first).error.None?
    ensures FundedAt(c, state, txs, k + 1)
       <==> FundedAt(c, ApplyTx(c, copy, height, state, txs[0], first).state, txs[1..], k)
  {
    if FromAddress(c, txs[k + 1]).Some? {
      var a := FromAddress(c, txs[k + 1]).value;
      TxAccount(c, copy, height, state, txs[0], first, a);
      SplitFirst(c, txs[..k + 2], a);
      SplitFirst(c, txs[..k + 1], a);
      assert txs[..k + 2][1..] == txs[1..][..k + 1] && txs[..k + 1][1..] == txs[1..][..k];
    }
  }

  lemma SplitFirst(c: Crypto, txs: seq<Tx>, a: Address)
    requires txs != []
    ensures Spent(c, txs, a) == Spent(c, [txs[0]], a) + Spent(c, txs[1..], a)
    ensures Received(txs, a) == Received([txs[0]], a) + Received(txs[1..], a)
  {
    assert [txs[0]][1..] == [];
  }

  lemma FundedStep(c: Crypto, copy: Copy, height: uint64, state: State, txs: seq<Tx>, first: bool)
    requires txs != [] && ApplyTx(c, copy, height, state, txs[0], first).error.None?
    ensures Funded(c, state, txs) <==> Funded(c, ApplyTx(c, copy, height, state, txs[0], first).state, txs[1..])
  {
    var after, rest := ApplyTx(c, copy, height, state, txs[0], first).state, txs[1..];
    FundedFirst(c, state, txs);
    forall k | 0 <= k < |rest| ensures FundedAt(c, after, rest, k) <==> FundedAt(c, state, txs, k + 1) {
      FundedLater(c, copy, height, state, txs, first, k);
    }
    if Funded(c, after, rest) {
      forall k | 0 <= k < |txs| ensures FundedAt(c, state, txs, k) {
        assert k > 0 ==> FundedAt(c, after, rest, k - 1);
      }
    }
  }

  /** Funded transactions never meet the funds check. */
  lemma {:induction false} FundedReplays(c: Crypto, copy: Copy, height: uint64, state: State, txs: seq<Tx>, i: nat)
    requires i <= |txs| && Funded(c, state, txs[i..])
    ensures ApplyFrom(c, copy, height, state, txs, i).error != Some(InsufficientFunds)
    decreases |txs| - i
  {
    if i < |txs| {
      assert FundedAt(c, state, txs[i..], 0);
      FundedFirst(c, state, txs[i..]);
      var o := ApplyTx(c, copy, height, state, txs[i], i == 0);
      if o.error.None? {
        FundedStep(c, copy, height, state, txs[i..], i == 0);
        assert txs[i..][1..] == txs[i + 1..];
        FundedReplays(c, copy, height, o.state, txs, i + 1);
      }
    }
  }

  /** And transactions the ledger applies were funded. */
  lemma {:induction false} ReplayedIsFunded(c: Crypto, copy: Copy, height: uint64, state: State, txs: seq<Tx>, i: nat)
    requires i <= |txs| && ApplyFrom(c, copy, height, state, txs, i).error.None?
    ensures Funded(c, state, txs[i..])
    decreases |txs| - i
  {
    if i < |txs| {
      var o := ApplyTx(c, copy, height, state, txs[i], i == 0);
      assert o.error.None?;
      ReplayedIsFunded(c, copy, height, o.state, txs, i + 1);
      assert txs[i..][0] == txs[i] && txs[i..][1..] == txs[i + 1..];
      FundedStep(c, copy, height, state, txs[i..], i == 0);
    }
  }

  /** The ledger could refuse them for nothing but funds. */
  ghost predicate FineButForFunds(c: Crypto, copy: Copy, height: uint64, state: State, txs: seq<Tx>, first: bool) {
    && (forall k :: 0 <= k < |txs| ==>
          && VerifyForConsensus(c, txs[k], height)
          && (txs[k].kind == Coinbase ==> first && k == 0)
          && (copy.CoreChain? && txs[k].kind == Transfer ==> !Wraps(txs[k])))
    && (forall a :: CountsUpFrom(NoncesOf(c, txs, a), Get(state, a).nonce))
    && (forall a :: Get(state, a).balance + Received(txs, a) < TWO64)
  }

  lemma OnlyFundsFail(c: Crypto, copy: Copy, height: uint64, state: State, txs: seq<Tx>, first: bool)
    requires txs != [] && FineButForFunds(c, copy, height, state, txs, first)
    ensures ApplyTx(c, copy, height, state, txs[0], first).error in {None, Some(InsufficientFunds)}
  {
    var tx := txs[0];
    assert Get(state, tx.to).balance + Received(txs, tx.to) < TWO64;
    assert VerifyForConsensus(c, tx, height);
    if tx.kind == Transfer {
      var a := FromAddress(c, tx).value;
      assert CountsUpFrom(NoncesOf(c, txs, a), Get(state, a).nonce);
      assert NoncesOf(c, txs, a)[0] == tx.nonce;
      TransferFailsForFunds(c, copy, height, state, tx, a);
    }
  }

  lemma TransferFailsForFunds(c: Crypto, copy: Copy, height: uint64, state: State, tx: Tx, a: Address)
    requires VerifyForConsensus(c, tx, height) && tx.kind == Transfer && FromAddress(c, tx) == Some(a)
    requires Get(state, a).nonce + 1 == tx.nonce && (copy.CoreChain? ==> !Wraps(tx))
    requires Get(state, tx.to).balance + tx.amount < TWO64
    ensures ApplyTransfer(c, copy, height, state, tx).error in {None, Some(InsufficientFunds)}
  {
  }

  lemma FineStep(c: Crypto, copy: Copy, height: uint64, state: State, txs: seq<Tx>, first: bool)
    requires txs != [] && FineButForFunds(c, copy, height, state, txs, first)
    requires ApplyTx(c, copy, height, state, txs[0], first).error.None?
    ensures FineButForFunds(c, copy, height, ApplyTx(c, copy, height, state, txs[0], first).state, txs[1..], false)
  {
    var o := ApplyTx(c, copy, height, state, txs[0], first);
    forall a ensures CountsUpFrom(NoncesOf(c, txs[1..], a), Get(o.state, a).nonce) {
      assert CountsUpFrom(NoncesOf(c, txs, a), Get(state, a).nonce);
      DropFirst(c, copy, height, state, txs, first, a);
    }
    forall a ensures Get(o.state, a).balance + Received(txs[1..], a) < TWO64 {
      assert Get(state, a).balance + Received(txs, a) < TWO64;
      TxAccount(c, copy, height, state, txs[0], first, a);
      SplitFirst(c, txs, a);
    }
    forall k | 0 <= k < |txs[1..]|
      ensures VerifyForConsensus(c, txs[1..][k], height) && txs[1..][k].kind != Coinbase
      ensures copy.CoreChain? && txs[1..][k].kind == Transfer ==> !Wraps(txs[1..][k])
    {
      assert txs[1..][k] == txs[k + 1];
    }
  }

  /** Transactions that are not funded, and otherwise fine, are refused for funds. */
  lemma {:induction false} UnfundedFails(c: Crypto, copy: Copy, height: uint64, state: State, txs: seq<Tx>, i: nat)
    requires i <= |txs| && FineButForFunds(c, copy, height, state, txs[i..], i == 0) && !Funded(c, state, txs[i..])
    ensures ApplyFrom(c, copy, height, state, txs, i).error == Some(InsufficientFunds)
    decreases |txs| - i
  {
    assert txs[i..] != [];
    OnlyFundsFail(c, copy, height, state, txs[i..], i == 0);
    var o := ApplyTx(c, copy, height, state, txs[i], i == 0);
    if o.error.None? {
      FineStep(c, copy, height, state, txs[i..], i == 0);
      FundedStep(c, copy, height, state, txs[i..], i == 0);
      assert txs[i..][1..] == txs[i + 1..];
      UnfundedFails(c, copy, height, o.state, txs, i + 1);
    }
  }

  /** A simpler check that suffices: nobody is charged more in all than they have. */
  lemma AffordableIsFunded(c: Crypto, state: State, txs: seq<Tx>)
    requires forall a :: Spent(c, txs, a) <= Get(state, a).balance
    ensures Funded(c, state, txs)
  {
    forall k | 0 <= k < |txs| ensures FundedAt(c, state, txs, k) {
      if FromAddress(c, txs[k]).Some? {
        var a := FromAddress(c, txs[k]).value;
        SpentPrefix(c, txs, k + 1, a);
        assert Spent(c, txs, a) <= Get(state, a).balance;
      }
    }
  }

  lemma {:induction false} SpentPrefix(c: Crypto, txs: seq<Tx>, n: nat, a: Address)
    requires n <= |txs|
    ensures Spent(c, txs[..n], a) <= Spent(c, txs, a)
  {
    if n > 0 {
      SpentPrefix(c, txs[1..], n - 1, a);
      assert txs[..n][1..] == txs[1..][..n - 1];
    }
  }

  // ----- a selection -----

  /** What a block around a selection must have for the ledger to get as far as its transactions. */
  ghost predicate BlockFine(v: View, p: MonetaryPolicy, copy: Copy, b: Block) {
    var paid := CreditGenesis(p, copy, b.height, v.state);
    && b.height == v.height && (copy.CoreChain? ==> b.withinSizeLimit)
    && |b.txs| > 0 && b.txs[0].kind == Coinbase && VerifyForConsensus(v.c, b.txs[0], b.height)
    && (b.height > 0 ==> CoinbaseError(v.c, p, copy, b).None?)
    && paid.error.None?
    && (forall a :: Get(paid.state, a).balance + Received(b.txs, a) < TWO64)
    && (copy.CoreChain? ==> forall k :: 0 < k < |b.txs| ==> !Wraps(b.txs[k]))
  }

  lemma PaidNonces(p: MonetaryPolicy, copy: Copy, height: uint64, state: State, a: Address)
    ensures Get(CreditGenesis(p, copy, height, state).state, a).nonce == Get(state, a).nonce
  {
  }

  lemma SelectionIsFine(v: View, p: MonetaryPolicy, copy: Copy, entries: seq<Entry>, limit: int, b: Block)
    requires BlockFine(v, p, copy, b) && b.txs[1..] == Select(v, entries, limit).picked
    ensures FineButForFunds(v.c, copy, b.height, CreditGenesis(p, copy, b.height, v.state).state, b.txs, true)
  {
    SelectionSound(v, entries, limit);
    var paid := CreditGenesis(p, copy, b.height, v.state).state;
    var s := Select(v, entries, limit);
    forall k | 0 < k < |b.txs| ensures VerifyForConsensus(v.c, b.txs[k], b.height) && b.txs[k].kind == Transfer {
      assert b.txs[k] == b.txs[1..][k - 1];
      assert PickedWell(v, entries[s.pickedAt[k - 1]], s.picked[k - 1], s.pickedIds[k - 1]);
    }
    forall a ensures CountsUpFrom(NoncesOf(v.c, b.txs, a), Get(paid, a).nonce) {
      assert CountsUpFrom(NoncesOf(v.c, b.txs[1..], a), Get(v.state, a).nonce);
      assert NoncesOf(v.c, b.txs, a) == NoncesOf(v.c, b.txs[1..], a);
      PaidNonces(p, copy, b.height, v.state, a);
    }
  }

  /**
   A block made of a coinbase and a selection meets no funds error if it is funded, is funded if it is accepted, and if
   nothing else is wrong with it and it is not funded, a funds error is what refuses it.
   */
  lemma SelectionFundedIff(v: View, p: MonetaryPolicy, copy: Copy, entries: seq<Entry>, limit: int, b: Block)
    requires |b.txs| > 0 && b.txs[1..] == Select(v, entries, limit).picked
    ensures
      var error := ApplyBlock(v.c, p, copy, v.state, b).error;
      var funded := Funded(v.c, CreditGenesis(p, copy, b.height, v.state).state, b.txs);
      && (funded ==> error != Some(InsufficientFunds))
      && (error.None? ==> funded)
      && (BlockFine(v, p, copy, b) && !funded ==> error == Some(InsufficientFunds))
  {
    var paid := CreditGenesis(p, copy, b.height, v.state).state;
    assert b.txs[0..] == b.txs;
    if Funded(v.c, paid, b.txs) {
      FundedReplays(v.c, copy, b.height, paid, b.txs, 0);
    }
    if ApplyBlock(v.c, p, copy, v.state, b).error.None? {
      ReplayedIsFunded(v.c, copy, b.height, paid, b.txs, 0);
    }
    if BlockFine(v, p, copy, b) && !Funded(v.c, paid, b.txs) {
      SelectionIsFine(v, p, copy, entries, limit, b);
      UnfundedFails(v.c, copy, b.height, paid, b.txs, 0);
    }
  }
}
