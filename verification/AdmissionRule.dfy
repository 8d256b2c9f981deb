/** What the admission rule decides, told from the list of the sender's pending transactions. */
module AdmissionRule {
  import opened Machine
  import opened Ledger
  import opened Admission

  predicate Pending(pending: seq<Tx>, n: uint64) {
    exists i :: 0 <= i < |pending| && pending[i].nonce == n
  }

  /** What is pending under this nonce; where a nonce repeats, the later transaction counts. */
  function Latest(pending: seq<Tx>, n: uint64): (tx: Tx)
    requires Pending(pending, n)
    ensures tx in pending && tx.nonce == n
  {
    var front, last := pending[..|pending| - 1], pending[|pending| - 1];
    if last.nonce == n then last
    else
      PendingFront(pending, n);
      Latest(front, n)
  }

  lemma PendingFront(pending: seq<Tx>, n: uint64)
    requires Pending(pending, n) && pending[|pending| - 1].nonce != n
    ensures Pending(pending[..|pending| - 1], n)
  {
    var i :| 0 <= i < |pending| && pending[i].nonce == n;
    assert pending[..|pending| - 1][i].nonce == n;
  }

  lemma {:induction false} IndexIs(pending: seq<Tx>, n: uint64)
    ensures n in IndexByNonce(pending) <==> Pending(pending, n)
    ensures Pending(pending, n) ==> IndexByNonce(pending)[n] == Latest(pending, n)
  {
    if pending != [] {
      var front, last := pending[..|pending| - 1], pending[|pending| - 1];
      IndexIs(front, n);
      if last.nonce != n {
        assert Pending(pending, n) <==> Pending(front, n) by {
          assert forall i :: 0 <= i < |front| ==> front[i] == pending[i];
        }
      } else {
        assert pending[|pending| - 1].nonce == n;
      }
    }
  }

  /** Amount and fee of what is pending under this nonce. */
  function Owed(pending: seq<Tx>, n: uint64): nat {
    if Pending(pending, n) then Latest(pending, n).amount + Latest(pending, n).fee else 0
  }

  function OwedIn(pending: seq<Tx>): uint64 -> nat {
    n => Owed(pending, n)
  }

  /** The sum over the k nonces from `start` on. */
  function Along(owed: uint64 -> nat, start: uint64, k: nat): nat {
    if k == 0 then 0 else Along(owed, start, k - 1) + owed(Nth(start, k - 1))
  }

  /** On uint64, what is owed ahead and by the transaction itself is within the balance. */
  predicate Covers(acct: Account, pending: seq<Tx>, k: nat, tx: Tx) {
    Wrap(Along(OwedIn(pending), Start(acct), k) + (tx.amount + tx.fee)) <= acct.balance
  }

  function Start(acct: Account): uint64 {
    if acct.nonce == MAX_UINT64 then 0 else acct.nonce + 1
  }

  /** Of the nonces from `start` on, the k-th is the first that is not pending. */
  ghost predicate FirstMissing(pending: seq<Tx>, start: uint64, k: nat) {
    k < TWO64 && !Pending(pending, Nth(start, k)) && forall j :: 0 <= j < k ==> Pending(pending, Nth(start, j))
  }

  /** Nothing is missing between the account's next nonce and this one. */
  ghost predicate NoneMissing(acct: Account, pending: seq<Tx>, nonce: uint64) {
    forall n: uint64 :: Start(acct) <= n < nonce ==> Pending(pending, n)
  }

  function Distance(acct: Account, nonce: uint64): nat {
    if nonce <= Start(acct) then 0 else nonce - Start(acct)
  }

  // ----- the sums -----

  lemma {:induction false} WrapDrops(x: nat, j: nat)
    ensures Wrap(x + TWO64 * j) == Wrap(x)
    decreases j
  {
    if j > 0 {
      WrapDrops(x, j - 1);
      assert x + TWO64 * j - TWO64 == x + TWO64 * (j - 1);
    }
  }

  /** At every nonce the second is the first, or 2^64 more. */
  ghost predicate UpToWrap(f: uint64 -> nat, g: uint64 -> nat) {
    forall n :: g(n) == f(n) || g(n) == f(n) + TWO64
  }

  lemma DebitOwed(pending: seq<Tx>)
    ensures UpToWrap(DebitIn(IndexByNonce(pending)), OwedIn(pending))
  {
    forall n: uint64
      ensures var f, g := DebitIn(IndexByNonce(pending)), OwedIn(pending); g(n) == f(n) || g(n) == f(n) + TWO64
    {
      IndexIs(pending, n);
    }
  }

  lemma LastOfRun(m: ByNonce, start: uint64, k: nat)
    requires HasRun(m, start, k + 1)
    ensures HasRun(m, start, k) && Nth(start, k) in m
    ensures TotalDebit(Run(m, start, k + 1)) == TotalDebit(Run(m, start, k)) + Debit(m[Nth(start, k)])
  {
    assert Nth(start, k) in m;
    RunGrows(m, start, k);
  }

  function DebitIn(m: ByNonce): uint64 -> nat {
    n => if n in m then Debit(m[n]) else 0
  }

  lemma {:induction false} RunDebits(m: ByNonce, start: uint64, k: nat)
    requires HasRun(m, start, k)
    ensures TotalDebit(Run(m, start, k)) == Along(DebitIn(m), start, k)
  {
    if k == 0 {
      assert Run(m, start, 0) == [];
    } else {
      LastOfRun(m, start, k - 1);
      RunDebits(m, start, k - 1);
    }
  }

  lemma {:induction false} AlongUpToWrap(f: uint64 -> nat, g: uint64 -> nat, start: uint64, k: nat) returns (j: nat)
    requires UpToWrap(f, g)
    ensures Along(g, start, k) == Along(f, start, k) + TWO64 * j
  {
    j := 0;
    if k > 0 {
      j := AlongUpToWrap(f, g, start, k - 1);
      var n := Nth(start, k - 1);
      if g(n) != f(n) {
        j := j + 1;
      }
    }
  }

  lemma Charged(sum: nat, j: nat, tx: Tx)
    ensures Add(Wrap(sum), Debit(tx)) == Wrap(sum + TWO64 * j + (tx.amount + tx.fee))
  {
    SumWraps(sum, Debit(tx));
    if tx.amount + tx.fee == Debit(tx) {
      WrapDrops(sum + Debit(tx), j);
    } else {
      WrapDrops(sum + Debit(tx), j + 1);
    }
  }

  lemma RunOwes(pending: seq<Tx>, start: uint64, k: nat) returns (j: nat)
    requires HasRun(IndexByNonce(pending), start, k)
    ensures Along(OwedIn(pending), start, k) == TotalDebit(Run(IndexByNonce(pending), start, k)) + TWO64 * j
  {
    DebitOwed(pending);
    RunDebits(IndexByNonce(pending), start, k);
    j := AlongUpToWrap(DebitIn(IndexByNonce(pending)), OwedIn(pending), start, k);
  }

  lemma RunCovers(acct: Account, pending: seq<Tx>, k: nat, tx: Tx)
    requires HasRun(IndexByNonce(pending), Start(acct), k)
    ensures Covers(acct, pending, k, tx) <==>
      Add(Wrap(TotalDebit(Run(IndexByNonce(pending), Start(acct), k))), Debit(tx)) <= acct.balance
  {
    var j := RunOwes(pending, Start(acct), k);
    Charged(TotalDebit(Run(IndexByNonce(pending), Start(acct), k)), j, tx);
  }

  // ----- the two scans -----

  lemma GapIs(pending: seq<Tx>, start: uint64, k: nat)
    requires FirstMissing(pending, start, k)
    ensures FirstGap(IndexByNonce(pending), start, k)
  {
    IndexIs(pending, Nth(start, k));
    forall j | 0 <= j < k ensures Nth(start, j) in IndexByNonce(pending) {
      IndexIs(pending, Nth(start, j));
    }
  }

  lemma AheadIs(acct: Account, pending: seq<Tx>, nonce: uint64)
    ensures
      var m := IndexByNonce(pending);
      var ahead := Ahead(m, Start(acct), nonce);
      && (ahead.Some? <==> NoneMissing(acct, pending, nonce))
      && (ahead.Some? ==> HasRun(m, Start(acct), Distance(acct, nonce))
                          && ahead.value == Run(m, Start(acct), Distance(acct, nonce)))
  {
    forall n: uint64 ensures n in IndexByNonce(pending) <==> Pending(pending, n) {
      IndexIs(pending, n);
    }
    if NoneMissing(acct, pending, nonce) {
      AheadIsRun(IndexByNonce(pending), Start(acct), nonce, Distance(acct, nonce));
    }
  }

  lemma AheadIsRun(m: ByNonce, start: uint64, nonce: uint64, k: nat)
    requires k == (if nonce <= start then 0 else nonce - start) && forall n: uint64 :: start <= n < nonce ==> n in m
    ensures HasRun(m, start, k) && Ahead(m, start, nonce) == Some(Run(m, start, k))
  {
    forall j | 0 <= j < k ensures Nth(start, j) == start + j && Nth(start, j) in m {
    }
    assert k > 0 ==> Ahead(m, start, nonce).value == Run(m, start, k);
  }

  // ----- the decision -----

  /** What decides: the nonce is the next one, it is held already, nothing is missing ahead, covered, a higher fee. */
  datatype Grounds = Grounds(next: bool, held: bool, complete: bool, covered: bool, higher: bool)

  ghost function GroundsFor(acct: Account, pending: seq<Tx>, tx: Tx, k: nat): Grounds {
    var next, held := tx.nonce == Nth(Start(acct), k), Pending(pending, tx.nonce);
    Grounds(next, held, NoneMissing(acct, pending, tx.nonce),
            Covers(acct, pending, if next then k else Distance(acct, tx.nonce), tx),
            held && Latest(pending, tx.nonce).fee < tx.fee)
  }

  function Ruling(g: Grounds, expected: uint64): Decision {
    if g.next then if g.covered then AddNew else Refuse(PendingFunds)
    else if !g.held then Refuse(NonceExpected(expected))
    else if !g.complete then Refuse(NonceGap)
    else if !g.covered then Refuse(PendingFunds)
    else if !g.higher then Refuse(FeeNotHigher)
    else ReplaceByFee
  }

  /** The rule, with the sums and the scan as it finds them. */
  lemma DecideByParts(acct: Account, m: ByNonce, tx: Tx, k: nat)
    requires HasRun(m, Start(acct), k)
    ensures
      var start := Start(acct);
      var ahead := Ahead(m, start, tx.nonce);
      var counted :=
        if tx.nonce == Nth(start, k) then Run(m, start, k) else if ahead.Some? then ahead.value else [];
      Decide(acct, m, tx, k) == Ruling(
        Grounds(tx.nonce == Nth(start, k), tx.nonce in m, ahead.Some?,
                Add(Wrap(TotalDebit(counted)), Debit(tx)) <= acct.balance, tx.nonce in m && m[tx.nonce].fee < tx.fee),
        Nth(start, k))
  {
  }

  lemma DecisionIsRuling(acct: Account, pending: seq<Tx>, tx: Tx, k: nat)
    requires HasRun(IndexByNonce(pending), Start(acct), k)
    ensures Decide(acct, IndexByNonce(pending), tx, k) == Ruling(GroundsFor(acct, pending, tx, k), Nth(Start(acct), k))
  {
    var m, start := IndexByNonce(pending), Start(acct);
    IndexIs(pending, tx.nonce);
    AheadIs(acct, pending, tx.nonce);
    DecideByParts(acct, m, tx, k);
    if tx.nonce == Nth(start, k) {
      RunCovers(acct, pending, k, tx);
    } else if NoneMissing(acct, pending, tx.nonce) {
      RunCovers(acct, pending, Distance(acct, tx.nonce), tx);
    }
  }

  ghost function Decision(acct: Account, pending: seq<Tx>, tx: Tx): Decision
    requires |IndexByNonce(pending)| < TWO64
  {
    Decide(acct, IndexByNonce(pending), tx, Gap(IndexByNonce(pending), Add(acct.nonce, 1)))
  }

  lemma TheGap(acct: Account, pending: seq<Tx>, k: nat)
    requires |IndexByNonce(pending)| < TWO64 && FirstMissing(pending, Start(acct), k)
    ensures Start(acct) == Add(acct.nonce, 1) && HasRun(IndexByNonce(pending), Start(acct), k)
    ensures Gap(IndexByNonce(pending), Add(acct.nonce, 1)) == k
  {
    var m, start := IndexByNonce(pending), Start(acct);
    GapIs(pending, start, k);
    FirstGapUnique(m, start, k, Gap(m, start));
  }

  /**
   The whole decision, where the k-th nonce is the first missing one: a transaction is added exactly at the first missing
   nonce, and replaces exactly a pending one of lower fee with nothing missing ahead, if the debits up to and with it are
   within the balance; and each refusal says which of these it misses.
   */
  lemma DecisionIff(acct: Account, pending: seq<Tx>, tx: Tx, k: nat)
    requires |IndexByNonce(pending)| < TWO64 && FirstMissing(pending, Start(acct), k)
    ensures
      var d, g := Decision(acct, pending, tx), GroundsFor(acct, pending, tx, k);
      && (d == AddNew <==> g.next && g.covered)
      && (d == ReplaceByFee <==> g.held && g.complete && g.covered && g.higher)
      && (d == Refuse(FeeNotHigher) <==> g.held && g.complete && g.covered && !g.higher)
      && (d == Refuse(PendingFunds) <==> (g.next || (g.held && g.complete)) && !g.covered)
      && (d == Refuse(NonceGap) <==> g.held && !g.complete)
      && (d == Refuse(NonceExpected(Nth(Start(acct), k))) <==> !g.next && !g.held)
  {
    TheGap(acct, pending, k);
    DecisionIsRuling(acct, pending, tx, k);
    assert GroundsFor(acct, pending, tx, k).next ==> !GroundsFor(acct, pending, tx, k).held;
  }

  /** In particular whatever is accepted at a pending nonce pays a higher fee than what is pending there. */
  lemma ReplacementPaysMore(acct: Account, pending: seq<Tx>, tx: Tx)
    requires |IndexByNonce(pending)| < TWO64 && Pending(pending, tx.nonce)
    requires Decision(acct, pending, tx) in {AddNew, ReplaceByFee}
    ensures Latest(pending, tx.nonce).fee < tx.fee
  {
    var k := SomethingMissing(pending, Start(acct));
    DecisionIff(acct, pending, tx, k);
    assert !GroundsFor(acct, pending, tx, k).next;
  }

  /** Every list a program can hold has a first missing nonce. */
  lemma SomethingMissing(pending: seq<Tx>, start: uint64) returns (k: nat)
    requires |IndexByNonce(pending)| < TWO64
    ensures FirstMissing(pending, start, k)
  {
    k := Gap(IndexByNonce(pending), start);
    IndexIs(pending, Nth(start, k));
    forall j | 0 <= j < k ensures Pending(pending, Nth(start, j)) {
      IndexIs(pending, Nth(start, j));
    }
  }
}
