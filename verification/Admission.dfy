/**
 Admitting a transaction next to the sender's pending ones: the rule shared by
 blockchain/api/tx_batch_handlers.go and blockchain/api/http.go.
 */
module Admission {
  import opened Machine
  import opened Ledger
  import opened LedgerExamples
  import opened LedgerLaws

  datatype Reason = PendingFunds | NonceExpected(nonce: uint64) | NonceGap | FeeNotHigher

  datatype Decision = AddNew | ReplaceByFee | Refuse(reason: Reason)

  type ByNonce = map<uint64, Tx>

  /** The pending transactions under their nonces; of two with the same nonce the later one stays. */
  function IndexByNonce(pending: seq<Tx>): ByNonce {
    if pending == [] then map[]
    else
      var last := pending[|pending| - 1];
      IndexByNonce(pending[..|pending| - 1])[last.nonce := last]
  }

  /** The k-th nonce from `start`, counting on uint64. */
  function Nth(start: uint64, k: nat): uint64 {
    (start + k) % TWO64
  }

  ghost predicate HasRun(m: ByNonce, start: uint64, k: nat) {
    forall j :: 0 <= j < k ==> Nth(start, j) in m
  }

  /** The nonces start, start + 1, ... are taken up to, and not including, the k-th. */
  ghost predicate FirstGap(m: ByNonce, start: uint64, k: nat) {
    k < TWO64 && HasRun(m, start, k) && Nth(start, k) !in m
  }

  function Run(m: ByNonce, start: uint64, k: nat): (txs: seq<Tx>)
    requires HasRun(m, start, k)
    ensures |txs| == k && forall j :: 0 <= j < k ==> txs[j] == m[Nth(start, j)]
  {
    seq(k, j requires 0 <= j < k => m[Nth(start, j)])
  }

  /** What the transactions are charged together, without wrap-around of the sum. */
  function TotalDebit(txs: seq<Tx>): nat {
    if txs == [] then 0 else TotalDebit(txs[..|txs| - 1]) + Debit(txs[|txs| - 1])
  }

  /** A run of k < 2^64 nonces has k different entries, so it ends within the pending set. */
  lemma {:induction false} RunIsInjective(m: ByNonce, start: uint64, k: nat) returns (taken: set<uint64>)
    requires k <= TWO64 && HasRun(m, start, k)
    ensures taken <= m.Keys && |taken| == k
    ensures forall n :: n in taken ==> exists j :: 0 <= j < k && n == Nth(start, j)
  {
    taken := {};
    for i := 0 to k
      invariant taken <= m.Keys && |taken| == i
      invariant forall n :: n in taken ==> exists j :: 0 <= j < i && n == Nth(start, j)
    {
      forall j | 0 <= j < i ensures Nth(start, j) != Nth(start, i) {
        NthDiffers(start, j, i);
      }
      assert Nth(start, i) in m;
      taken := taken + {Nth(start, i)};
    }
  }

  lemma NthDiffers(start: uint64, j: nat, k: nat)
    requires j < k < TWO64 + j
    ensures Nth(start, j) != Nth(start, k)
  {
  }

  lemma RunFits(m: ByNonce, start: uint64, k: nat)
    requires k <= TWO64 && HasRun(m, start, k)
    ensures k <= |m|
  {
    var taken := RunIsInjective(m, start, k);
    SubsetSize(taken, m.Keys);
  }

  lemma {:induction false} SubsetSize<T>(a: set<T>, b: set<T>)
    requires a <= b
    ensures |a| <= |b|
  {
    assert |b| == |a| + |b - a| by {
      assert b == a + (b - a);
    }
  }

  lemma RunGrows(m: ByNonce, start: uint64, k: nat)
    requires HasRun(m, start, k) && Nth(start, k) in m
    ensures HasRun(m, start, k + 1) && Nth(start, k + 1) == Add(Nth(start, k), 1)
    ensures TotalDebit(Run(m, start, k + 1)) == TotalDebit(Run(m, start, k)) + Debit(m[Nth(start, k)])
  {
    assert Run(m, start, k + 1)[..k] == Run(m, start, k);
  }

  lemma FirstGapUnique(m: ByNonce, start: uint64, k: nat, k': nat)
    requires FirstGap(m, start, k) && FirstGap(m, start, k')
    ensures k == k'
  {
  }

  lemma {:induction false} GapExists(m: ByNonce, start: uint64, k: nat) returns (gap: nat)
    requires |m| < TWO64 && k <= |m| && HasRun(m, start, k)
    ensures FirstGap(m, start, gap)
    decreases |m| - k
  {
    gap := k;
    if Nth(start, k) in m {
      RunGrows(m, start, k);
      RunFits(m, start, k + 1);
      gap := GapExists(m, start, k + 1);
    }
  }

  /** The first gap; there is one in every pending set a slice can hold. */
  ghost function Gap(m: ByNonce, start: uint64): (k: nat)
    requires |m| < TWO64
    ensures FirstGap(m, start, k)
  {
    assert exists k :: FirstGap(m, start, k) by {
      var k := GapExists(m, start, 0);
    }
    var k :| FirstGap(m, start, k);
    k
  }

  /** The scan for the next nonce: it ends for every pending set, at the first gap. */
  method NextNonce(m: ByNonce, start: uint64) returns (expected: uint64, debit: uint64)
    requires |m| < TWO64
    ensures expected == Nth(start, Gap(m, start))
    ensures debit == Wrap(TotalDebit(Run(m, start, Gap(m, start))))
  {
    expected, debit := start, 0;
    ghost var k := 0;
    while expected in m
      invariant k <= |m| && HasRun(m, start, k) && expected == Nth(start, k)
      invariant debit == Wrap(TotalDebit(Run(m, start, k)))
      decreases |m| - k
    {
      RunGrows(m, start, k);
      RunFits(m, start, k + 1);
      SumWraps(TotalDebit(Run(m, start, k)), Debit(m[expected]));
      debit := Add(debit, Debit(m[expected]));
      expected := Add(expected, 1);
      k := k + 1;
    }
    FirstGapUnique(m, start, k, Gap(m, start));
  }

  /** The pending transactions a replacement counts ahead of itself; None when one is missing. */
  function Ahead(m: ByNonce, start: uint64, nonce: uint64): Option<seq<Tx>> {
    if nonce <= start then Some([])
    else if forall n: uint64 | start <= n < nonce :: n in m then
      Some(seq(nonce - start, j requires 0 <= j < nonce - start => var n: uint64 := start + j; m[n]))
    else None
  }

  /** The admission rule, given the first gap k of the sender's run. */
  function Decide(acct: Account, m: ByNonce, tx: Tx, k: nat): Decision
    requires HasRun(m, Add(acct.nonce, 1), k)
  {
    var start := Add(acct.nonce, 1);
    if tx.nonce == Nth(start, k) then
      if acct.balance < Add(Wrap(TotalDebit(Run(m, start, k))), Debit(tx)) then Refuse(PendingFunds) else AddNew
    else if tx.nonce !in m then Refuse(NonceExpected(Nth(start, k)))
    else match Ahead(m, start, tx.nonce)
      case None => Refuse(NonceGap)
      case Some(ahead) =>
        if acct.balance < Add(Wrap(TotalDebit(ahead)), Debit(tx)) then Refuse(PendingFunds)
        else if tx.fee <= m[tx.nonce].fee then Refuse(FeeNotHigher)
        else ReplaceByFee
  }

  /** The second scan, for a replacement. */
  method DebitAhead(m: ByNonce, start: uint64, nonce: uint64) returns (debit: Option<uint64>)
    ensures debit.None? <==> Ahead(m, start, nonce).None?
    ensures debit.Some? ==> debit.value == Wrap(TotalDebit(Ahead(m, start, nonce).value))
  {
    var n, sum: uint64 := start, 0;
    while n < nonce
      invariant start <= n
      invariant n <= nonce || n == start
      invariant Ahead(m, start, n).Some?
      invariant sum == Wrap(TotalDebit(Ahead(m, start, n).value))
    {
      if n !in m {
        return None;
      }
      assert Ahead(m, start, n + 1).value[..n - start] == Ahead(m, start, n).value;
      SumWraps(TotalDebit(Ahead(m, start, n).value), Debit(m[n]));
      sum := Add(sum, Debit(m[n]));
      n := n + 1;
    }
    return Some(sum);
  }

  /** `submitSingleTransaction` and `handleSubmitTx`, up to the decision. */
  method Admit(acct: Account, pending: seq<Tx>, tx: Tx) returns (d: Decision)
    requires |pending| < TWO64
    ensures |IndexByNonce(pending)| <= |pending|
    ensures d == Decide(acct, IndexByNonce(pending), tx, Gap(IndexByNonce(pending), Add(acct.nonce, 1)))
  {
    var m: ByNonce := map[];
    for i := 0 to |pending|
      invariant m == IndexByNonce(pending[..i]) && |m| <= i
    {
      assert pending[..i + 1][..i] == pending[..i];
      IndexGrows(m, pending[i]);
      m := m[pending[i].nonce := pending[i]];
    }
    assert pending[..|pending|] == pending;
    var start := Add(acct.nonce, 1);
    var expected, before := NextNonce(m, start);
    if tx.nonce == expected {
      if acct.balance < Add(before, Debit(tx)) {
        return Refuse(PendingFunds);
      }
      return AddNew;
    }
    if tx.nonce !in m {
      return Refuse(NonceExpected(expected));
    }
    var ahead := DebitAhead(m, start, tx.nonce);
    if ahead.None? {
      return Refuse(NonceGap);
    }
    if acct.balance < Add(ahead.value, Debit(tx)) {
      return Refuse(PendingFunds);
    }
    if tx.fee <= m[tx.nonce].fee {
      return Refuse(FeeNotHigher);
    }
    return ReplaceByFee;
  }

  lemma IndexGrows(m: ByNonce, tx: Tx)
    ensures |m[tx.nonce := tx]| <= |m| + 1
  {
    assert m[tx.nonce := tx].Keys == m.Keys + {tx.nonce};
  }

  // ----- the ledger's point of view -----

  /** The ledger's nonce and funds checks on one sender's transfers, with own transfers coming back. */
  ghost predicate Payable(a: Address, balance: int, nonce: uint64, txs: seq<Tx>)
    decreases |txs|
  {
    txs == [] ||
    (&& Add(nonce, 1) == txs[0].nonce
     && Debit(txs[0]) <= balance
     && Payable(a, balance - Debit(txs[0]) + (if txs[0].to == a then txs[0].amount else 0), txs[0].nonce, txs[1..]))
  }

  ghost predicate AllFrom(c: Crypto, a: Address, txs: seq<Tx>) {
    forall tx :: tx in txs ==> FromAddress(c, tx) == Some(a)
  }

  lemma OwnTransferApplied(c: Crypto, copy: Copy, height: uint64, state: State, a: Address, tx: Tx, first: bool)
    requires FromAddress(c, tx) == Some(a) && ApplyTx(c, copy, height, state, tx, first).error.None?
    ensures Add(Get(state, a).nonce, 1) == tx.nonce && Debit(tx) <= Get(state, a).balance
    ensures
      var acct := Get(ApplyTx(c, copy, height, state, tx, first).state, a);
      && acct.nonce == tx.nonce
      && acct.balance == Get(state, a).balance - Debit(tx) + (if tx.to == a then tx.amount else 0)
  {
  }

  /** Payable transfers never run into the nonce or the funds check of the ledger. */
  lemma {:induction false} PayableReplays(c: Crypto, copy: Copy, height: uint64, state: State, a: Address, txs: seq<Tx>, i: nat)
    requires i <= |txs| && AllFrom(c, a, txs)
    requires Payable(a, Get(state, a).balance, Get(state, a).nonce, txs[i..])
    ensures ApplyFrom(c, copy, height, state, txs, i).error !in {Some(BadNonce), Some(InsufficientFunds)}
    decreases |txs| - i
  {
    if i < |txs| {
      var o := ApplyTx(c, copy, height, state, txs[i], i == 0);
      if o.error.None? {
        OwnTransferApplied(c, copy, height, state, a, txs[i], i == 0);
        assert txs[i..][1..] == txs[i + 1..];
        PayableReplays(c, copy, height, o.state, a, txs, i + 1);
      }
    }
  }

  /** And transfers the ledger applies are payable. */
  lemma {:induction false} ReplayedIsPayable(c: Crypto, copy: Copy, height: uint64, state: State, a: Address, txs: seq<Tx>, i: nat)
    requires i <= |txs| && AllFrom(c, a, txs)
    requires ApplyFrom(c, copy, height, state, txs, i).error.None?
    ensures Payable(a, Get(state, a).balance, Get(state, a).nonce, txs[i..])
    decreases |txs| - i
  {
    if i < |txs| {
      var o, rest := ApplyTx(c, copy, height, state, txs[i], i == 0), txs[i..];
      assert o.error.None? && txs[i] in txs;
      OwnTransferApplied(c, copy, height, state, a, txs[i], i == 0);
      ReplayedIsPayable(c, copy, height, o.state, a, txs, i + 1);
      assert rest[0] == txs[i] && rest[1..] == txs[i + 1..];
      PayableStep(a, Get(state, a).balance, Get(state, a).nonce, rest);
    }
  }

  lemma PayableStep(a: Address, balance: int, nonce: uint64, txs: seq<Tx>)
    requires txs != [] && Add(nonce, 1) == txs[0].nonce && Debit(txs[0]) <= balance
    requires Payable(
      a, balance - Debit(txs[0]) + (if txs[0].to == a then txs[0].amount else 0), txs[0].nonce, txs[1..])
    ensures Payable(a, balance, nonce, txs)
  {
  }

  ghost predicate NoncesFrom(start: uint64, txs: seq<Tx>) {
    forall j :: 0 <= j < |txs| ==> txs[j].nonce == Nth(start, j)
  }

  function DebitFromFront(txs: seq<Tx>): nat {
    if txs == [] then 0 else Debit(txs[0]) + DebitFromFront(txs[1..])
  }

  lemma {:induction false} DebitEitherWay(txs: seq<Tx>)
    ensures DebitFromFront(txs) == TotalDebit(txs)
    decreases |txs|
  {
    if |txs| > 1 {
      var n := |txs| - 1;
      DebitEitherWay(txs[1..]);
      DebitEitherWay(txs[1..][..n - 1]);
      DebitEitherWay(txs[..n]);
      assert txs[1..][..n - 1] == txs[..n][1..];
    } else if |txs| == 1 {
      assert txs[1..] == [] && txs[..0] == [];
    }
  }

  lemma {:induction false} AffordableIsPayable(a: Address, balance: int, nonce: uint64, txs: seq<Tx>)
    requires NoncesFrom(Add(nonce, 1), txs) && DebitFromFront(txs) <= balance
    ensures Payable(a, balance, nonce, txs)
    decreases |txs|
  {
    if txs != [] {
      assert txs[0].nonce == Nth(Add(nonce, 1), 0);
      forall j | 0 <= j < |txs[1..]|
        ensures txs[1..][j].nonce == Nth(Add(txs[0].nonce, 1), j)
      {
        assert txs[j + 1].nonce == Nth(Add(nonce, 1), j + 1);
      }
      AffordableIsPayable(
        a, balance - Debit(txs[0]) + (if txs[0].to == a then txs[0].amount else 0), txs[0].nonce, txs[1..]);
    }
  }

  /** What comes back to the sender from transfers to themselves. */
  function Returned(a: Address, txs: seq<Tx>): nat {
    if txs == [] then 0 else (if txs[0].to == a then txs[0].amount else 0) + Returned(a, txs[1..])
  }

  /** The debits up to the n-th transfer are covered by the balance and what came back before it. */
  ghost predicate CoveredAt(a: Address, balance: int, txs: seq<Tx>, n: nat)
    requires n < |txs|
  {
    DebitFromFront(txs[..n + 1]) <= balance + Returned(a, txs[..n])
  }

  ghost predicate Covered(a: Address, balance: int, txs: seq<Tx>) {
    forall n :: 0 <= n < |txs| ==> CoveredAt(a, balance, txs, n)
  }

  function Left(a: Address, balance: int, tx: Tx): int {
    balance - Debit(tx) + (if tx.to == a then tx.amount else 0)
  }

  lemma CoveredLater(a: Address, balance: int, txs: seq<Tx>, n: nat)
    requires n + 1 < |txs|
    ensures CoveredAt(a, balance, txs, n + 1) <==> CoveredAt(a, Left(a, balance, txs[0]), txs[1..], n)
  {
    assert txs[..n + 2][1..] == txs[1..][..n + 1] && txs[..n + 1][1..] == txs[1..][..n];
  }

  lemma CoveredFirst(a: Address, balance: int, txs: seq<Tx>)
    requires txs != []
    ensures CoveredAt(a, balance, txs, 0) <==> Debit(txs[0]) <= balance
  {
    assert txs[..1][1..] == [] && txs[..0] == [];
    assert DebitFromFront(txs[..1]) == Debit(txs[0]);
  }

  lemma CoveredStep(a: Address, balance: int, txs: seq<Tx>)
    requires txs != []
    ensures Covered(a, balance, txs)
       <==> Debit(txs[0]) <= balance && Covered(a, Left(a, balance, txs[0]), txs[1..])
  {
    var left, rest := Left(a, balance, txs[0]), txs[1..];
    CoveredFirst(a, balance, txs);
    forall n | 0 <= n < |rest| ensures CoveredAt(a, left, rest, n) <==> CoveredAt(a, balance, txs, n + 1) {
      CoveredLater(a, balance, txs, n);
    }
    if Debit(txs[0]) <= balance && Covered(a, left, rest) {
      forall n | 0 <= n < |txs| ensures CoveredAt(a, balance, txs, n) {
        assert n > 0 ==> CoveredAt(a, left, rest, n - 1);
      }
    }
  }

  lemma NoncesStep(start: uint64, txs: seq<Tx>)
    requires txs != []
    ensures NoncesFrom(start, txs) <==> txs[0].nonce == start && NoncesFrom(Add(start, 1), txs[1..])
  {
    assert Nth(start, 0) == start;
    forall j | 0 <= j < |txs[1..]| ensures Nth(Add(start, 1), j) == Nth(start, j + 1) {
    }
    if txs[0].nonce == start && NoncesFrom(Add(start, 1), txs[1..]) {
      forall j | 0 <= j < |txs| ensures txs[j].nonce == Nth(start, j) {
        assert j > 0 ==> txs[1..][j - 1].nonce == Nth(Add(start, 1), j - 1);
      }
    } else if NoncesFrom(start, txs) {
      forall j | 0 <= j < |txs[1..]| ensures txs[1..][j].nonce == Nth(Add(start, 1), j) {
        assert txs[j + 1].nonce == Nth(start, j + 1);
      }
    }
  }

  /** Payable means exactly: nonces in a row from the account's, and every prefix of the debits covered. */
  lemma {:induction false} PayableIff(a: Address, balance: int, nonce: uint64, txs: seq<Tx>)
    ensures Payable(a, balance, nonce, txs) <==> NoncesFrom(Add(nonce, 1), txs) && Covered(a, balance, txs)
    decreases |txs|
  {
    if txs != [] {
      CoveredStep(a, balance, txs);
      NoncesStep(Add(nonce, 1), txs);
      PayableIff(a, Left(a, balance, txs[0]), txs[0].nonce, txs[1..]);
    }
  }

  /** The ledger could refuse them for nothing but nonces and funds. */
  ghost predicate OtherwiseFine(c: Crypto, copy: Copy, height: uint64, state: State, a: Address, txs: seq<Tx>) {
    && AllFrom(c, a, txs)
    && (forall tx :: tx in txs ==> VerifyForConsensus(c, tx, height) && (copy.CoreChain? ==> !Wraps(tx)))
    && (forall r :: Get(state, r).balance + Received(txs, r) < TWO64)
  }

  lemma OtherwiseFineStep(c: Crypto, copy: Copy, height: uint64, state: State, a: Address, txs: seq<Tx>, first: bool)
    requires OtherwiseFine(c, copy, height, state, a, txs) && txs != []
    ensures
      var o := ApplyTx(c, copy, height, state, txs[0], first);
      && (o.error.None? ==> OtherwiseFine(c, copy, height, o.state, a, txs[1..]))
      && (o.error.Some? ==> o.error in {Some(BadNonce), Some(InsufficientFunds)})
  {
    var tx := txs[0];
    assert tx in txs;
    var o := ApplyTx(c, copy, height, state, tx, first);
    assert Get(state, tx.to).balance + Received(txs, tx.to) < TWO64;
    CreditHasRoom(c, copy, height, state, a, tx, first);
    if o.error.None? {
      forall r ensures Get(o.state, r).balance + Received(txs[1..], r) < TWO64 {
        TxAccount(c, copy, height, state, tx, first, r);
        assert [tx][1..] == [];
      }
    }
  }

  lemma CreditHasRoom(c: Crypto, copy: Copy, height: uint64, state: State, a: Address, tx: Tx, first: bool)
    requires FromAddress(c, tx) == Some(a) && VerifyForConsensus(c, tx, height) && (copy.CoreChain? ==> !Wraps(tx))
    requires Get(state, tx.to).balance + tx.amount < TWO64
    ensures ApplyTx(c, copy, height, state, tx, first).error in {None, Some(BadNonce), Some(InsufficientFunds)}
  {
  }

  /** Transfers that are not payable, and otherwise fine, are refused for a nonce or for funds. */
  lemma {:induction false} UnpayableFails(
      c: Crypto, copy: Copy, height: uint64, state: State, a: Address, txs: seq<Tx>, i: nat)
    requires i <= |txs| && OtherwiseFine(c, copy, height, state, a, txs[i..])
    requires !Payable(a, Get(state, a).balance, Get(state, a).nonce, txs[i..])
    ensures ApplyFrom(c, copy, height, state, txs, i).error in {Some(BadNonce), Some(InsufficientFunds)}
    decreases |txs| - i
  {
    assert txs[i..] != [];
    assert txs[i..][1..] == txs[i + 1..];
    OtherwiseFineStep(c, copy, height, state, a, txs[i..], i == 0);
    var o := ApplyTx(c, copy, height, state, txs[i], i == 0);
    if o.error.None? {
      assert txs[i] in txs[i..];
      OwnTransferApplied(c, copy, height, state, a, txs[i], i == 0);
      UnpayableFails(c, copy, height, o.state, a, txs, i + 1);
    }
  }

  /** The transactions an accepting decision counted, and the accepted one behind them. */
  function Counted(acct: Account, m: ByNonce, tx: Tx, k: nat): seq<Tx>
    requires HasRun(m, Add(acct.nonce, 1), k)
  {
    var start := Add(acct.nonce, 1);
    if tx.nonce == Nth(start, k) then Run(m, start, k) + [tx]
    else match Ahead(m, start, tx.nonce) case Some(ahead) => ahead + [tx] case None => [tx]
  }

  /** The nonce is not behind the account's. */
  predicate LiveNonce(acct: Account, tx: Tx, k: nat) {
    tx.nonce == Nth(Add(acct.nonce, 1), k) || Add(acct.nonce, 1) <= tx.nonce
  }

  /** What a caller can check before submitting: not a stale nonce, and every prefix of the debits really covered. */
  ghost predicate Replayable(a: Address, acct: Account, m: ByNonce, tx: Tx, k: nat)
    requires HasRun(m, Add(acct.nonce, 1), k)
  {
    LiveNonce(acct, tx, k) && Covered(a, acct.balance, Counted(acct, m, tx, k))
  }

  /** A simpler check that suffices: not a stale nonce, and a sum of debits that does not wrap. */
  ghost predicate SafeToSubmit(acct: Account, m: ByNonce, tx: Tx, k: nat)
    requires HasRun(m, Add(acct.nonce, 1), k)
  {
    LiveNonce(acct, tx, k) && TotalDebit(Counted(acct, m, tx, k)) < TWO64
  }

  ghost predicate Accepted(acct: Account, m: ByNonce, tx: Tx, k: nat) {
    && HasRun(m, Add(acct.nonce, 1), k)
    && Decide(acct, m, tx, k) in {AddNew, ReplaceByFee}
  }

  /** The index holds every transaction under its own nonce, all from one sender. */
  ghost predicate IndexOf(c: Crypto, a: Address, m: ByNonce) {
    forall n :: n in m ==> m[n].nonce == n && FromAddress(c, m[n]) == Some(a)
  }

  lemma {:induction false} IndexByNonceIsIndex(c: Crypto, a: Address, pending: seq<Tx>)
    requires AllFrom(c, a, pending)
    ensures IndexOf(c, a, IndexByNonce(pending))
  {
    if pending != [] {
      IndexByNonceIsIndex(c, a, pending[..|pending| - 1]);
    }
  }

  lemma CountedParts(c: Crypto, a: Address, acct: Account, m: ByNonce, tx: Tx, k: nat)
    requires Accepted(acct, m, tx, k) && IndexOf(c, a, m) && FromAddress(c, tx) == Some(a)
    ensures
      var txs := Counted(acct, m, tx, k);
      && |txs| > 0 && txs[|txs| - 1] == tx
      && (forall t :: t in txs ==> t == tx || (t.nonce in m && m[t.nonce] == t))
      && AllFrom(c, a, txs)
  {
  }

  lemma CountedNonces(c: Crypto, a: Address, acct: Account, m: ByNonce, tx: Tx, k: nat)
    requires Accepted(acct, m, tx, k) && IndexOf(c, a, m)
    requires LiveNonce(acct, tx, k)
    ensures NoncesFrom(Add(acct.nonce, 1), Counted(acct, m, tx, k))
  {
    var start := Add(acct.nonce, 1);
    if tx.nonce == Nth(start, k) {
      RunNonces(c, a, m, start, k);
    } else {
      AheadNonces(c, a, m, start, tx.nonce);
    }
  }

  lemma RunNonces(c: Crypto, a: Address, m: ByNonce, start: uint64, k: nat)
    requires HasRun(m, start, k) && IndexOf(c, a, m)
    ensures NoncesFrom(start, Run(m, start, k))
  {
  }

  lemma AheadNonces(c: Crypto, a: Address, m: ByNonce, start: uint64, nonce: uint64)
    requires IndexOf(c, a, m) && start <= nonce && Ahead(m, start, nonce).Some?
    ensures NoncesFrom(start, Ahead(m, start, nonce).value) && |Ahead(m, start, nonce).value| == nonce - start
    ensures Nth(start, nonce - start) == nonce
  {
  }

  lemma CountedDebit(acct: Account, m: ByNonce, tx: Tx, k: nat)
    requires Accepted(acct, m, tx, k)
    ensures Wrap(TotalDebit(Counted(acct, m, tx, k))) <= acct.balance
  {
    var start := Add(acct.nonce, 1);
    var txs := Counted(acct, m, tx, k);
    var before := txs[..|txs| - 1];
    SumWraps(TotalDebit(before), Debit(tx));
    if tx.nonce == Nth(start, k) {
      assert before == Run(m, start, k);
    } else {
      assert before == Ahead(m, start, tx.nonce).value;
    }
  }

  /** Payable is exactly what can be checked beforehand. */
  lemma ReplayableIff(c: Crypto, a: Address, acct: Account, m: ByNonce, tx: Tx, k: nat)
    requires Accepted(acct, m, tx, k) && IndexOf(c, a, m)
    ensures Replayable(a, acct, m, tx, k) <==> Payable(a, acct.balance, acct.nonce, Counted(acct, m, tx, k))
  {
    var txs := Counted(acct, m, tx, k);
    PayableIff(a, acct.balance, acct.nonce, txs);
    if LiveNonce(acct, tx, k) {
      CountedNonces(c, a, acct, m, tx, k);
    } else {
      assert txs == [tx];
      assert NoncesFrom(Add(acct.nonce, 1), txs) ==> txs[0].nonce == Nth(Add(acct.nonce, 1), 0);
    }
  }

  lemma SafeIsReplayable(c: Crypto, a: Address, acct: Account, m: ByNonce, tx: Tx, k: nat)
    requires Accepted(acct, m, tx, k) && IndexOf(c, a, m) && SafeToSubmit(acct, m, tx, k)
    ensures Replayable(a, acct, m, tx, k)
  {
    var txs := Counted(acct, m, tx, k);
    CountedNonces(c, a, acct, m, tx, k);
    CountedDebit(acct, m, tx, k);
    DebitEitherWay(txs);
    AffordableIsPayable(a, acct.balance, acct.nonce, txs);
    ReplayableIff(c, a, acct, m, tx, k);
  }

  /**
   An accepted transaction replays on the ledger after the ones counted ahead of it, without a nonce or funds error,
   exactly when this could be checked beforehand; otherwise one of these errors stops it, if nothing else does.
   */
  lemma AdmissionSoundIff(
      c: Crypto, copy: Copy, height: uint64, state: State, a: Address, m: ByNonce, tx: Tx, k: nat)
    requires Accepted(Get(state, a), m, tx, k) && IndexOf(c, a, m) && FromAddress(c, tx) == Some(a)
    ensures
      var txs := Counted(Get(state, a), m, tx, k);
      var error := ApplyFrom(c, copy, height, state, txs, 0).error;
      && (Replayable(a, Get(state, a), m, tx, k) ==> error !in {Some(BadNonce), Some(InsufficientFunds)})
      && (!Replayable(a, Get(state, a), m, tx, k) ==> error.Some?)
      && (!Replayable(a, Get(state, a), m, tx, k) && OtherwiseFine(c, copy, height, state, a, txs) ==>
            error in {Some(BadNonce), Some(InsufficientFunds)})
  {
    var txs := Counted(Get(state, a), m, tx, k);
    CountedParts(c, a, Get(state, a), m, tx, k);
    ReplayableIff(c, a, Get(state, a), m, tx, k);
    assert txs[0..] == txs;
    if Replayable(a, Get(state, a), m, tx, k) {
      PayableReplays(c, copy, height, state, a, txs, 0);
    } else {
      if ApplyFrom(c, copy, height, state, txs, 0).error.None? {
        ReplayedIsPayable(c, copy, height, state, a, txs, 0);
      }
      if OtherwiseFine(c, copy, height, state, a, txs) {
        UnpayableFails(c, copy, height, state, a, txs, 0);
      }
    }
  }

  /** Joined to the decision: whatever `Admit` accepts on a list of pending transactions of the sender. */
  lemma AdmittedReplaysIff(
      c: Crypto, copy: Copy, height: uint64, state: State, a: Address, pending: seq<Tx>, tx: Tx)
    requires |IndexByNonce(pending)| < TWO64 && AllFrom(c, a, pending) && FromAddress(c, tx) == Some(a)
    requires
      var m := IndexByNonce(pending);
      Decide(Get(state, a), m, tx, Gap(m, Add(Get(state, a).nonce, 1))) in {AddNew, ReplaceByFee}
    ensures
      var m := IndexByNonce(pending);
      var k := Gap(m, Add(Get(state, a).nonce, 1));
      var txs := Counted(Get(state, a), m, tx, k);
      var error := ApplyFrom(c, copy, height, state, txs, 0).error;
      && (Replayable(a, Get(state, a), m, tx, k) ==> error !in {Some(BadNonce), Some(InsufficientFunds)})
      && (!Replayable(a, Get(state, a), m, tx, k) && OtherwiseFine(c, copy, height, state, a, txs) ==>
            error in {Some(BadNonce), Some(InsufficientFunds)})
      && (SafeToSubmit(Get(state, a), m, tx, k) ==> Replayable(a, Get(state, a), m, tx, k))
  {
    var m := IndexByNonce(pending);
    var k := Gap(m, Add(Get(state, a).nonce, 1));
    IndexByNonceIsIndex(c, a, pending);
    AdmissionSoundIff(c, copy, height, state, a, m, tx, k);
    if SafeToSubmit(Get(state, a), m, tx, k) {
      SafeIsReplayable(c, a, Get(state, a), m, tx, k);
    }
  }

  /** Stale replacements: a pending transaction behind the account's nonce lets an unusable one in. */
  lemma StaleReplacementAccepted()
    ensures
      var m := map[3 := SignedTransfer("bob", 1, 10000, 3)];
      var tx, acct := SignedTransfer("bob", 1, 20000, 3), Account(100000, 5);
      && FirstGap(m, 6, 0)
      && Decide(acct, m, tx, 0) == ReplaceByFee
      && ApplyTransfer(Permissive("alice"), Validator, 1, map["alice" := acct], tx).error == Some(BadNonce)
  {
    SignedTransferVerifies("alice", "bob", 1, 20000, 3, 1);
  }

  /** Wrapped sums, in an order this rule admits: a debit of the whole balance, then one of 2^64 less that balance. */
  lemma WrappedSumAccepted()
    ensures
      var acct := Account(10001, 0);
      var one, two := SignedTransfer("bob", 1, 10000, 1), SignedTransfer("bob", TWO64 - 20001, 10000, 2);
      var m := map[1 := one];
      && FirstGap(map[], 1, 0) && Decide(acct, map[], one, 0) == AddNew
      && FirstGap(m, 1, 1) && Decide(acct, m, two, 1) == AddNew
      && !Wraps(two) && !Replayable("alice", acct, m, two, 1)
  {
    var acct := Account(10001, 0);
    var one, two := SignedTransfer("bob", 1, 10000, 1), SignedTransfer("bob", TWO64 - 20001, 10000, 2);
    var m := map[1 := one];
    assert Nth(1, 0) == 1 && Nth(1, 1) == 2;
    assert Run(map[], 1, 0) == [];
    var run := Run(m, 1, 1);
    assert run == [one];
    PairDebit("alice", one, two);
    assert Debit(one) == 10001 && Debit(two) == TWO64 - 10001;
    assert Wrap(10001) == 10001 && Add(10001, Debit(two)) == 0;
    var txs := Counted(acct, m, two, 1);
    assert txs == [one, two];
    assert txs[..2] == [one, two] && txs[..1] == [one];
    assert "alice" != "bob";
    assert !CoveredAt("alice", 10001, txs, 1);
  }

  lemma PairDebit(a: Address, one: Tx, two: Tx)
    ensures DebitFromFront([one, two]) == Debit(one) + Debit(two)
    ensures Returned(a, [one]) == if one.to == a then one.amount else 0
    ensures TotalDebit([one]) == Debit(one)
  {
    assert [one, two][1..] == [two] && [two][1..] == [] && [one][1..] == [] && [one][..0] == [];
    assert DebitFromFront([two]) == Debit(two) && Returned(a, []) == 0 && TotalDebit([]) == 0;
  }
}
