/** The dry run and the commit on the same block from the same state: they differ by the genesis share. */
module Copies {
  import opened Machine
  import opened Monetary
  import opened Ledger
  import opened LedgerLaws
  import opened Funding

  /** A state with the balance of `g` raised. */
  function Raised(state: State, g: Address, reward: nat): State
    requires Get(state, g).balance + reward < TWO64
  {
    state[g := Get(state, g).(balance := Get(state, g).balance + reward)]
  }

  // ----- one transaction -----

  lemma RaisedCredit(state: State, a: Address, amount: uint64, g: Address, reward: nat)
    requires Get(state, g).balance + reward < TWO64
    ensures
      var plain, raised := Credit(state, a, amount), Credit(Raised(state, g, reward), a, amount);
      && ((plain.error.None? && Get(plain.state, g).balance + reward < TWO64) <==> raised.error.None?)
      && (raised.error.None? ==> raised.state == Raised(plain.state, g, reward))
  {
  }

  lemma RaisedDebit(state: State, a: Address, debit: uint64, nonce: uint64, g: Address, reward: nat)
    requires Get(state, g).balance + reward < TWO64 && debit <= Get(state, a).balance
    ensures
      var plain := state[a := Account(Get(state, a).balance - debit, nonce)];
      var before := Get(Raised(state, g, reward), a);
      && Get(plain, g).balance + reward < TWO64 && debit <= before.balance
      && Raised(state, g, reward)[a := Account(before.balance - debit, nonce)] == Raised(plain, g, reward)
  {
  }

  /** A transfer of `g` is paid without the reward. */
  predicate PaysAlone(c: Crypto, state: State, tx: Tx, g: Address) {
    FromAddress(c, tx) == Some(g) ==> Debit(tx) <= Get(state, g).balance
  }

  lemma RaisedTransfer(c: Crypto, height: uint64, state: State, tx: Tx, g: Address, reward: nat)
    requires Get(state, g).balance + reward < TWO64 && tx.kind == Transfer
    ensures
      var plain := ApplyTransfer(c, Validator, height, state, tx);
      var raised := ApplyTransfer(c, Validator, height, Raised(state, g, reward), tx);
      && ((plain.error.None? && Get(plain.state, g).balance + reward < TWO64) <==>
          (raised.error.None? && PaysAlone(c, state, tx, g)))
      && (raised.error.None? && PaysAlone(c, state, tx, g) ==> raised.state == Raised(plain.state, g, reward))
  {
    if FromAddress(c, tx).Some? {
      var a := FromAddress(c, tx).value;
      var own, raised := Get(state, a), Get(Raised(state, g, reward), a);
      assert raised.nonce == own.nonce && (a != g ==> raised == own);
      if Debit(tx) <= own.balance {
        RaisedPayment(c, height, state, tx, a, g, reward);
      }
    }
  }

  lemma RaisedPayment(c: Crypto, height: uint64, state: State, tx: Tx, a: Address, g: Address, reward: nat)
    requires Get(state, g).balance + reward < TWO64 && tx.kind == Transfer
    requires FromAddress(c, tx) == Some(a) && Debit(tx) <= Get(state, a).balance
    ensures
      var plain := ApplyTransfer(c, Validator, height, state, tx);
      var raised := ApplyTransfer(c, Validator, height, Raised(state, g, reward), tx);
      && ((plain.error.None? && Get(plain.state, g).balance + reward < TWO64) <==> raised.error.None?)
      && (raised.error.None? ==> raised.state == Raised(plain.state, g, reward))
  {
    RaisedDebit(state, a, Debit(tx), tx.nonce, g, reward);
    RaisedCredit(Debited(state, a, tx), tx.to, tx.amount, g, reward);
    PaidTransfer(c, height, state, tx, a);
    PaidTransfer(c, height, Raised(state, g, reward), tx, a);
  }

  function Debited(state: State, a: Address, tx: Tx): State
    requires Debit(tx) <= Get(state, a).balance
  {
    state[a := Account(Get(state, a).balance - Debit(tx), tx.nonce)]
  }

  /** A transfer that is paid for ends with the credit, if it gets past the checks before. */
  lemma PaidTransfer(c: Crypto, height: uint64, state: State, tx: Tx, a: Address)
    requires FromAddress(c, tx) == Some(a) && Debit(tx) <= Get(state, a).balance
    ensures ApplyTransfer(c, Validator, height, state, tx)
         == if !VerifyForConsensus(c, tx, height) then Outcome(state, Some(Unverified))
            else if Add(Get(state, a).nonce, 1) != tx.nonce then Outcome(state, Some(BadNonce))
            else Credit(Debited(state, a, tx), tx.to, tx.amount)
  {
  }

  lemma RaisedTx(c: Crypto, height: uint64, state: State, tx: Tx, first: bool, g: Address, reward: nat)
    requires Get(state, g).balance + reward < TWO64
    ensures
      var plain := ApplyTx(c, Validator, height, state, tx, first);
      var raised := ApplyTx(c, Validator, height, Raised(state, g, reward), tx, first);
      && ((plain.error.None? && Get(plain.state, g).balance + reward < TWO64) <==>
          (raised.error.None? && PaysAlone(c, state, tx, g)))
      && (raised.error.None? && PaysAlone(c, state, tx, g) ==> raised.state == Raised(plain.state, g, reward))
  {
    match tx.kind
    case Coinbase => RaisedCredit(state, tx.to, tx.amount, g, reward);
    case Transfer => RaisedTransfer(c, height, state, tx, g, reward);
    case Other =>
  }

  // ----- all of them -----

  /** Every prefix of what `g` is charged is covered by its own balance and receipts. */
  ghost predicate Alone(c: Crypto, state: State, txs: seq<Tx>, g: Address) {
    forall k :: 0 <= k < |txs| && FromAddress(c, txs[k]) == Some(g) ==> FundedAt(c, state, txs, k)
  }

  /** After the first k transactions the balance of `g` has room for the reward. */
  ghost predicate RoomAt(c: Crypto, state: State, txs: seq<Tx>, g: Address, reward: nat, k: nat)
    requires k <= |txs|
  {
    Get(state, g).balance + Received(txs[..k], g) - Spent(c, txs[..k], g) + reward < TWO64
  }

  ghost predicate Room(c: Crypto, state: State, txs: seq<Tx>, g: Address, reward: nat) {
    forall k :: 0 <= k <= |txs| ==> RoomAt(c, state, txs, g, reward, k)
  }

  lemma RoomNow(c: Crypto, state: State, txs: seq<Tx>, g: Address, reward: nat)
    ensures RoomAt(c, state, txs, g, reward, 0) <==> Get(state, g).balance + reward < TWO64
  {
    assert txs[..0] == [];
  }

  lemma RoomLater(c: Crypto, height: uint64, state: State, txs: seq<Tx>, first: bool, g: Address, reward: nat, k: nat)
    requires k < |txs| && ApplyTx(c, Validator, height, state, txs[0], first).error.None?
    ensures RoomAt(c, state, txs, g, reward, k + 1)
       <==> RoomAt(c, ApplyTx(c, Validator, height, state, txs[0], first).state, txs[1..], g, reward, k)
  {
    TxAccount(c, Validator, height, state, txs[0], first, g);
    SplitFirst(c, txs[..k + 1], g);
    assert txs[..k + 1][1..] == txs[1..][..k];
  }

  lemma RoomStep(c: Crypto, height: uint64, state: State, txs: seq<Tx>, first: bool, g: Address, reward: nat)
    requires txs != [] && ApplyTx(c, Validator, height, state, txs[0], first).error.None?
    ensures
      var after := ApplyTx(c, Validator, height, state, txs[0], first).state;
      Room(c, state, txs, g, reward) <==>
        Get(state, g).balance + reward < TWO64 && Room(c, after, txs[1..], g, reward)
  {
    var after, rest := ApplyTx(c, Validator, height, state, txs[0], first).state, txs[1..];
    RoomNow(c, state, txs, g, reward);
    forall k | 0 <= k <= |rest| ensures RoomAt(c, after, rest, g, reward, k) <==> RoomAt(c, state, txs, g, reward, k + 1) {
      RoomLater(c, height, state, txs, first, g, reward, k);
    }
    if Get(state, g).balance + reward < TWO64 && Room(c, after, rest, g, reward) {
      forall k | 0 <= k <= |txs| ensures RoomAt(c, state, txs, g, reward, k) {
        assert k > 0 ==> RoomAt(c, after, rest, g, reward, k - 1);
      }
    }
  }

  lemma AloneStep(c: Crypto, height: uint64, state: State, txs: seq<Tx>, first: bool, g: Address)
    requires txs != [] && ApplyTx(c, Validator, height, state, txs[0], first).error.None?
    ensures Alone(c, state, txs, g) <==> Alone(c, ApplyTx(c, Validator, height, state, txs[0], first).state, txs[1..], g)
  {
    var after, rest := ApplyTx(c, Validator, height, state, txs[0], first).state, txs[1..];
    FundedFirst(c, state, txs);
    forall k | 0 <= k < |rest| ensures FundedAt(c, after, rest, k) <==> FundedAt(c, state, txs, k + 1) {
      FundedLater(c, Validator, height, state, txs, first, k);
    }
    if Alone(c, after, rest, g) {
      forall k | 0 <= k < |txs| && FromAddress(c, txs[k]) == Some(g) ensures FundedAt(c, state, txs, k) {
        assert k > 0 ==> rest[k - 1] == txs[k];
      }
    }
  }

  /** Both sides of the comparison, for the transactions from index i on. */
  ghost predicate PlainSide(c: Crypto, height: uint64, state: State, txs: seq<Tx>, i: nat, g: Address, reward: nat)
    requires i <= |txs|
  {
    ApplyFrom(c, Validator, height, state, txs, i).error.None? && Room(c, state, txs[i..], g, reward)
  }

  ghost predicate RaisedSide(c: Crypto, height: uint64, state: State, txs: seq<Tx>, i: nat, g: Address, reward: nat)
    requires i <= |txs| && Get(state, g).balance + reward < TWO64
  {
    ApplyFrom(c, Validator, height, Raised(state, g, reward), txs, i).error.None? && Alone(c, state, txs[i..], g)
  }

  /**
   Applied with room for the reward after every prefix is applied from the raised state with every prefix of the debits of
   `g` covered without it; and the results differ by the reward.
   */
  lemma {:induction false} RaisedTxs(c: Crypto, height: uint64, state: State, txs: seq<Tx>, i: nat, g: Address, reward: nat)
    requires i <= |txs| && Get(state, g).balance + reward < TWO64
    ensures PlainSide(c, height, state, txs, i, g, reward) <==> RaisedSide(c, height, state, txs, i, g, reward)
    ensures PlainSide(c, height, state, txs, i, g, reward) ==>
      var plain := ApplyFrom(c, Validator, height, state, txs, i).state;
      && Get(plain, g).balance + reward < TWO64
      && ApplyFrom(c, Validator, height, Raised(state, g, reward), txs, i).state == Raised(plain, g, reward)
    decreases |txs| - i
  {
    if i == |txs| {
      RoomNow(c, state, txs[i..], g, reward);
    } else {
      var tx, first, rest := txs[i], i == 0, txs[i..];
      assert rest[0] == tx && rest[1..] == txs[i + 1..];
      RaisedTx(c, height, state, tx, first, g, reward);
      var plain := ApplyTx(c, Validator, height, state, tx, first);
      if plain.error.None? {
        RoomStep(c, height, state, rest, first, g, reward);
        AloneStep(c, height, state, rest, first, g);
        RoomNow(c, plain.state, rest[1..], g, reward);
        AloneNow(c, height, state, tx, first, g);
        if Get(plain.state, g).balance + reward < TWO64 {
          RaisedTxs(c, height, plain.state, txs, i + 1, g, reward);
        } else {
          assert !RoomAt(c, plain.state, rest[1..], g, reward, 0);
        }
      } else if ApplyTx(c, Validator, height, Raised(state, g, reward), tx, first).error.None? {
        NotAlone(c, height, state, rest, first, g, reward);
      }
    }
  }

  lemma AloneNow(c: Crypto, height: uint64, state: State, tx: Tx, first: bool, g: Address)
    requires ApplyTx(c, Validator, height, state, tx, first).error.None?
    ensures PaysAlone(c, state, tx, g)
  {
  }

  lemma NotAlone(c: Crypto, height: uint64, state: State, txs: seq<Tx>, first: bool, g: Address, reward: nat)
    requires txs != [] && Get(state, g).balance + reward < TWO64
    requires ApplyTx(c, Validator, height, state, txs[0], first).error.Some?
    requires ApplyTx(c, Validator, height, Raised(state, g, reward), txs[0], first).error.None?
    ensures !Alone(c, state, txs, g)
  {
    RaisedTx(c, height, state, txs[0], first, g, reward);
    FundedFirst(c, state, txs);
    assert !FundedAt(c, state, txs, 0);
  }

  // ----- blocks -----

  lemma {:induction false} AppliedHasRoom(c: Crypto, height: uint64, state: State, txs: seq<Tx>, i: nat, g: Address)
    requires i <= |txs| && ApplyFrom(c, Validator, height, state, txs, i).error.None?
    ensures Room(c, state, txs[i..], g, 0)
    decreases |txs| - i
  {
    if i == |txs| {
      RoomNow(c, state, txs[i..], g, 0);
    } else {
      assert txs[i..][0] == txs[i] && txs[i..][1..] == txs[i + 1..];
      AppliedHasRoom(c, height, ApplyTx(c, Validator, height, state, txs[i], i == 0).state, txs, i + 1, g);
      RoomStep(c, height, state, txs[i..], i == 0, g, 0);
    }
  }

  /** Without a reward both conditions hold of whatever is applied. */
  lemma NothingToRaise(c: Crypto, p: MonetaryPolicy, state: State, b: Block, g: Address)
    requires ApplyBlock(c, p, Validator, state, b).error.None?
    ensures Alone(c, state, b.txs, g) && Room(c, state, b.txs, g, 0)
  {
    assert b.txs[0..] == b.txs;
    ReplayedIsFunded(c, Validator, b.height, state, b.txs, 0);
    AppliedHasRoom(c, b.height, state, b.txs, 0, g);
  }

  lemma RaisedBlock(c: Crypto, p: MonetaryPolicy, state: State, b: Block, g: Address, reward: nat)
    requires Get(state, g).balance + reward < TWO64
    ensures
      var plain, raised := ApplyBlock(c, p, Validator, state, b), ApplyBlock(c, p, Validator, Raised(state, g, reward), b);
      && ((plain.error.None? && Room(c, state, b.txs, g, reward)) <==>
          (raised.error.None? && Alone(c, state, b.txs, g)))
      && (plain.error.None? && Room(c, state, b.txs, g, reward) ==>
            Get(plain.state, g).balance + reward < TWO64 && raised.state == Raised(plain.state, g, reward))
  {
    assert b.txs[0..] == b.txs;
    RaisedTxs(c, b.height, state, b.txs, 0, g, reward);
  }

  /** What the commit leaves where the dry run leaves `dry`. */
  function WithReward(dry: State, g: Address, reward: nat): State {
    if 0 < reward && Get(dry, g).balance + reward < TWO64 then Raised(dry, g, reward) else dry
  }

  /**
   From the same state, for every block and policy: a block the commit accepts, with every debit of the genesis address
   covered without the reward of this block, is a block the dry run accepts, without a wrapped debit and with room for
   the reward after every transaction; and the states then differ at that address by the reward and nowhere else.
   */
  lemma CopiesAgreeIff(c: Crypto, p: MonetaryPolicy, g: Address, state: State, b: Block)
    ensures
      var reward := GenesisReward(p, CoreChain(g), b.height);
      var dry := ApplyBlock(c, p, Validator, state, b);
      var core := ApplyBlock(c, p, CoreChain(g), state, b);
      && ((core.error.None? && DryRunTakesMiner(c, b) && Alone(c, state, b.txs, g)) <==>
          (CommitDemands(c, b) && dry.error.None? && WrapCount(b.txs) == 0 && Room(c, state, b.txs, g, reward)))
      && (core.error.None? && DryRunTakesMiner(c, b) && Alone(c, state, b.txs, g) ==>
            core.state == WithReward(dry.state, g, reward) && Get(dry.state, g).balance + reward < TWO64)
  {
    var reward := GenesisReward(p, CoreChain(g), b.height);
    CopiesAgree(c, p, g, state, b);
    RoomNow(c, state, b.txs, g, reward);
    if reward == 0 {
      if ApplyBlock(c, p, Validator, state, b).error.None? {
        NothingToRaise(c, p, state, b, g);
      }
    } else if Get(state, g).balance + reward < TWO64 {
      RaisedBlock(c, p, state, b, g, reward);
      assert CreditGenesis(p, CoreChain(g), b.height, state) == Outcome(Raised(state, g, reward), None);
    } else {
      assert !RoomAt(c, state, b.txs, g, reward, 0);
    }
  }
}
