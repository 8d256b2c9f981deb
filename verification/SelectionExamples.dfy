/** A pool whose selection the ledger cannot fund. */
module SelectionExamples {
  import opened Machine
  import opened Monetary
  import opened Ledger
  import opened LedgerLaws
  import opened LedgerExamples
  import opened Selection
  import opened Funding

  /** Two transfers of one sender, each charged 10001. */
  function TwoEntries(to: Address): seq<Entry> {
    [Entry("one", SignedTransfer(to, 1, 10000, 1)), Entry("two", SignedTransfer(to, 1, 10000, 2))]
  }

  /** The sender has 15000. */
  function ViewOf(from: Address): View {
    View(Permissive(from), map[from := Account(15000, 0)], 1, 1)
  }

  function BlockOf(miner: Address, to: Address): Block {
    Block(1, miner, [Tx(Coinbase, 1, [], miner, 100, 0, 0, []),
                     SignedTransfer(to, 1, 10000, 1), SignedTransfer(to, 1, 10000, 2)], true)
  }

  lemma FirstPicked(from: Address, to: Address)
    ensures Step(ViewOf(from), TwoEntries(to), 0, START)
         == Progress([SignedTransfer(to, 1, 10000, 1)], ["one"], [], [0], [], map[from := 2])
  {
    SignedTransferVerifies(from, to, 1, 10000, 1, 1);
  }

  lemma SecondPicked(from: Address, to: Address)
    ensures Step(ViewOf(from), TwoEntries(to), 1,
                 Progress([SignedTransfer(to, 1, 10000, 1)], ["one"], [], [0], [], map[from := 2])).picked
         == [SignedTransfer(to, 1, 10000, 1), SignedTransfer(to, 1, 10000, 2)]
  {
    SignedTransferVerifies(from, to, 1, 10000, 2, 1);
  }

  /** Both are picked, because the balance covers each of them. */
  lemma BothPicked(from: Address, to: Address)
    ensures Select(ViewOf(from), TwoEntries(to), 2).picked
         == [SignedTransfer(to, 1, 10000, 1), SignedTransfer(to, 1, 10000, 2)]
  {
    var v, entries := ViewOf(from), TwoEntries(to);
    FirstPicked(from, to);
    SecondPicked(from, to);
    var s1 := Step(v, entries, 0, START);
    assert SelectFrom(v, entries, 2, 0, START) == SelectFrom(v, entries, 2, 1, s1);
    assert SelectFrom(v, entries, 2, 1, s1) == SelectFrom(v, entries, 2, 2, Step(v, entries, 1, s1));
  }

  lemma NotFunded(miner: Address, from: Address, to: Address)
    requires miner != from && to != from
    ensures !Funded(Permissive(from), map[from := Account(15000, 0)], BlockOf(miner, to).txs)
  {
    var c, state, txs := Permissive(from), map[from := Account(15000, 0)], BlockOf(miner, to).txs;
    assert txs[..3] == txs && txs[1..][1..] == [txs[2]] && [txs[2]][1..] == [];
    assert Spent(c, [txs[2]], from) == 10001;
    assert Spent(c, txs[1..], from) == 20002;
    assert txs[..2] == [txs[0], txs[1]] && [txs[0], txs[1]][1..] == [txs[1]] && [txs[1]][1..] == [];
    assert Received([txs[1]], from) == 0;
    assert !FundedAt(c, state, txs, 2);
  }

  lemma NothingElseWrong(miner: Address, from: Address, to: Address)
    requires miner != from && to != from
    ensures BlockFine(ViewOf(from), EXAMPLE_POLICY, Validator, BlockOf(miner, to))
  {
    var v, b := ViewOf(from), BlockOf(miner, to);
    assert FeesWrapped(b.txs, 1) == 0 && FeesWrapped(b.txs, 2) == 10000 && FeesWrapped(b.txs, 3) == 20000;
    assert RewardAt(EXAMPLE_POLICY, 1) == 100;
    forall a ensures Get(v.state, a).balance + Received(b.txs, a) < TWO64 {
      assert b.txs[1..][1..] == [b.txs[2]] && [b.txs[2]][1..] == [];
      assert Received([b.txs[2]], a) <= 1;
      assert Received(b.txs[1..], a) <= 2;
    }
  }

  /** The block made of this selection is refused for funds. */
  lemma SelectionNotFunded(miner: Address, from: Address, to: Address)
    requires miner != from && to != from
    ensures BlockOf(miner, to).txs[1..] == Select(ViewOf(from), TwoEntries(to), 2).picked
    ensures ApplyBlock(Permissive(from), EXAMPLE_POLICY, Validator, map[from := Account(15000, 0)], BlockOf(miner, to)).error
         == Some(InsufficientFunds)
  {
    BothPicked(from, to);
    NotFunded(miner, from, to);
    NothingElseWrong(miner, from, to);
    SelectionFundedIff(ViewOf(from), EXAMPLE_POLICY, Validator, TwoEntries(to), 2, BlockOf(miner, to));
  }
}
