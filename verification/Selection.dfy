/** Picking a block's worth of transactions: `SelectMempoolTxs` in blockchain/cmd/wrappers.go. */
module Selection {
  import opened Machine
  import opened Monetary
  import opened Ledger
  import opened LedgerLaws

  datatype Entry = Entry(id: string, tx: Tx)

  /** What the miner reads from the chain; the account state does not change during a selection. */
  datatype View = View(c: Crypto, state: State, chainId: uint64, height: uint64)

  /** Where a selection stands: what was picked and evicted, at which positions, and each picked sender's next nonce. */
  datatype Progress = Progress(
    picked: seq<Tx>, pickedIds: seq<string>, evictIds: seq<string>,
    pickedAt: seq<nat>, evictedAt: seq<nat>,
    next: map<Address, uint64>)

  /** Some entry of the pool carries this nonce of this sender. */
  ghost predicate Pending(c: Crypto, entries: seq<Entry>, a: Address, nonce: uint64) {
    exists e :: e in entries && FromAddress(c, e.tx) == Some(a) && e.tx.nonce == nonce
  }

  /** No pending nonce of the sender in from..to - 1. */
  ghost predicate NoneBetween(c: Crypto, entries: seq<Entry>, a: Address, from: uint64, to: uint64) {
    forall n: uint64 :: from <= n < to ==> !Pending(c, entries, a, n)
  }

  datatype Choice = Skip | Evict | Pick(sender: Address)

  /** What the loop body decides about one transaction. */
  ghost function Choose(v: View, entries: seq<Entry>, next: map<Address, uint64>, tx: Tx): Choice {
    if tx.kind != Transfer || !VerifyForConsensus(v.c, tx, v.height) then Skip
    else match FromAddress(v.c, tx)
      case None => Skip
      case Some(a) =>
        var chainExpected := Add(Get(v.state, a).nonce, 1);
        if a in next && tx.nonce != next[a] then Skip
        else if a !in next && tx.nonce != chainExpected then
          if tx.nonce > chainExpected && NoneBetween(v.c, entries, a, chainExpected, tx.nonce) then Evict else Skip
        else if Get(v.state, a).balance < Debit(tx) then Skip
        else Pick(a)
  }

  ghost function Step(v: View, entries: seq<Entry>, i: nat, s: Progress): Progress
    requires i < |entries|
  {
    var tx := WithChainId(entries[i].tx, v.chainId);
    match Choose(v, entries, s.next, tx)
    case Skip => s
    case Evict => s.(evictIds := s.evictIds + [entries[i].id], evictedAt := s.evictedAt + [i])
    case Pick(a) => s.(picked := s.picked + [tx], pickedIds := s.pickedIds + [entries[i].id],
                       pickedAt := s.pickedAt + [i], next := s.next[a := Add(tx.nonce, 1)])
  }

  ghost function SelectFrom(v: View, entries: seq<Entry>, limit: int, i: nat, s: Progress): Progress
    requires i <= |entries|
    decreases |entries| - i
  {
    if i == |entries| || |s.picked| >= limit then s
    else SelectFrom(v, entries, limit, i + 1, Step(v, entries, i, s))
  }

  const START := Progress([], [], [], [], [], map[])

  ghost function Select(v: View, entries: seq<Entry>, limit: int): Progress {
    SelectFrom(v, entries, limit, 0, START)
  }

  // ----- the method -----

  predicate Taken(nonces: map<Address, set<uint64>>, a: Address, n: uint64) {
    a in nonces && n in nonces[a]
  }

  ghost predicate Collected(c: Crypto, entries: seq<Entry>, nonces: map<Address, set<uint64>>) {
    forall a, n: uint64 :: Taken(nonces, a, n) <==> Pending(c, entries, a, n)
  }

  /** The pre-scan: every sender's pending nonces. */
  method CollectNonces(c: Crypto, entries: seq<Entry>) returns (nonces: map<Address, set<uint64>>)
    ensures Collected(c, entries, nonces)
  {
    nonces := map[];
    for i := 0 to |entries|
      invariant Collected(c, entries[..i], nonces)
    {
      var tx := entries[i].tx;
      var from := FromAddress(c, tx);
      ghost var before := nonces;
      if from.Some? {
        if from.value !in nonces {
          nonces := nonces[from.value := {}];
        }
        nonces := nonces[from.value := nonces[from.value] + {tx.nonce}];
      }
      forall a, n: uint64
        ensures Taken(nonces, a, n) <==> Pending(c, entries[..i + 1], a, n)
      {
        PendingGrows(c, entries, i, a, n);
        assert Taken(before, a, n) <==> Pending(c, entries[..i], a, n);
      }
    }
    assert entries[..|entries|] == entries;
  }

  lemma PendingGrows(c: Crypto, entries: seq<Entry>, i: nat, a: Address, n: uint64)
    requires i < |entries|
    ensures Pending(c, entries[..i + 1], a, n)
       <==> Pending(c, entries[..i], a, n) || (FromAddress(c, entries[i].tx) == Some(a) && entries[i].tx.nonce == n)
  {
    assert entries[..i + 1] == entries[..i] + [entries[i]];
  }

  /** The scan for an intermediate nonce. */
  method HasIntermediate(nonces: map<Address, set<uint64>>, a: Address, from: uint64, to: uint64)
      returns (found: bool)
    ensures found <==> exists n: uint64 :: from <= n < to && Taken(nonces, a, n)
  {
    var n: int := from;
    while n < to
      invariant from <= n && (n <= to || n == from)
      invariant forall k: uint64 :: from <= k < n ==> !Taken(nonces, a, k)
    {
      if Taken(nonces, a, n) {
        return true;
      }
      n := n + 1;
    }
    return false;
  }

  /** The body of the picking loop, up to its decision. */
  method Consider(v: View, ghost entries: seq<Entry>, nonces: map<Address, set<uint64>>,
                  next: map<Address, uint64>, tx: Tx) returns (choice: Choice)
    requires Collected(v.c, entries, nonces)
    ensures choice == Choose(v, entries, next, tx)
  {
    if tx.kind != Transfer {
      return Skip;
    }
    if !VerifyForConsensus(v.c, tx, v.height) {
      return Skip;
    }
    var from := FromAddress(v.c, tx);
    if from.None? {
      return Skip;
    }
    var a := from.value;
    var acct := Get(v.state, a);
    if a in next {
      if tx.nonce != next[a] {
        return Skip;
      }
    } else {
      var chainExpected := Add(acct.nonce, 1);
      if tx.nonce != chainExpected {
        if tx.nonce > chainExpected {
          var hasIntermediate := HasIntermediate(nonces, a, chainExpected, tx.nonce);
          if !hasIntermediate {
            return Evict;
          }
        }
        return Skip;
      }
    }
    var totalDebit := Debit(tx);
    if acct.balance < totalDebit {
      return Skip;
    }
    return Pick(a);
  }

  method SelectMempoolTxs(v: View, entries: seq<Entry>, maxTxPerBlock: int)
      returns (picked: seq<Tx>, pickedIds: seq<string>, evictIds: seq<string>)
    ensures picked == Select(v, entries, maxTxPerBlock).picked
    ensures pickedIds == Select(v, entries, maxTxPerBlock).pickedIds
    ensures evictIds == Select(v, entries, maxTxPerBlock).evictIds
  {
    picked, pickedIds, evictIds := [], [], [];
    ghost var s := START;
    var nonces := CollectNonces(v.c, entries);
    var next: map<Address, uint64> := map[];
    for i := 0 to |entries|
      invariant SelectFrom(v, entries, maxTxPerBlock, i, s) == Select(v, entries, maxTxPerBlock)
      invariant s.next == next && s.picked == picked && s.pickedIds == pickedIds && s.evictIds == evictIds
    {
      if |picked| >= maxTxPerBlock {
        return;
      }
      var tx := WithChainId(entries[i].tx, v.chainId);
      var choice := Consider(v, entries, nonces, next, tx);
      s := Step(v, entries, i, s);
      match choice {
        case Skip =>
        case Evict =>
          evictIds := evictIds + [entries[i].id];
        case Pick(a) =>
          next := next[a := Add(tx.nonce, 1)];
          picked := picked + [tx];
          pickedIds := pickedIds + [entries[i].id];
      }
    }
  }

  // ----- what a selection guarantees -----

  /** Strictly increasing positions below n. */
  ghost predicate Positions(at: seq<nat>, n: nat) {
    && (forall k :: 0 <= k < |at| ==> at[k] < n)
    && forall j, k :: 0 <= j < k < |at| ==> at[j] < at[k]
  }

  /** The picks are a subsequence of the first n entries, within the limit, each payable on its own. */
  ghost predicate PicksSound(v: View, entries: seq<Entry>, limit: int, n: nat, s: Progress)
    requires n <= |entries|
  {
    && Positions(s.pickedAt, n)
    && |s.picked| == |s.pickedIds| == |s.pickedAt|
    && (|s.picked| <= limit || s.picked == [])
    && forall k :: 0 <= k < |s.picked| ==> PickedWell(v, entries[s.pickedAt[k]], s.picked[k], s.pickedIds[k])
  }

  /** A picked entry is a verified transfer the sender's chain balance covers. */
  ghost predicate PickedWell(v: View, e: Entry, tx: Tx, id: string) {
    && tx == WithChainId(e.tx, v.chainId)
    && id == e.id
    && VerifyForConsensus(v.c, tx, v.height)
    && FromAddress(v.c, tx).Some?
    && Debit(tx) <= Get(v.state, FromAddress(v.c, tx).value).balance
  }

  ghost predicate EvictionsSound(v: View, entries: seq<Entry>, n: nat, s: Progress)
    requires n <= |entries|
  {
    && Positions(s.evictedAt, n)
    && |s.evictIds| == |s.evictedAt|
    && forall k :: 0 <= k < |s.evictedAt| ==>
         s.evictIds[k] == entries[s.evictedAt[k]].id && EvictedWell(v, entries, entries[s.evictedAt[k]])
  }

  /** An evicted entry lies beyond a gap: nothing pending from the next usable nonce up to its own. */
  ghost predicate EvictedWell(v: View, entries: seq<Entry>, e: Entry) {
    var from := FromAddress(v.c, e.tx);
    && from.Some?
    && var expected := Add(Get(v.state, from.value).nonce, 1);
       e.tx.nonce > expected && NoneBetween(v.c, entries, from.value, expected, e.tx.nonce)
  }

  /** The picks of one sender continue the chain's nonce, and `next` knows where they stand. */
  ghost predicate SenderSound(v: View, picked: seq<Tx>, next: map<Address, uint64>, a: Address) {
    var nonces := NoncesOf(v.c, picked, a);
    var last := Get(v.state, a).nonce + |nonces|;
    && CountsUpFrom(nonces, Get(v.state, a).nonce)
    && last <= MAX_UINT64
    && (a in next <==> nonces != [])
    && (a in next ==> next[a] == Add(last, 1))
  }

  ghost predicate SendersSound(v: View, picked: seq<Tx>, next: map<Address, uint64>) {
    forall a :: SenderSound(v, picked, next, a)
  }

  lemma {:induction false} NoncesAppend(c: Crypto, txs: seq<Tx>, tx: Tx, a: Address)
    ensures NoncesOf(c, txs + [tx], a)
         == NoncesOf(c, txs, a) + (if FromAddress(c, tx) == Some(a) then [tx.nonce] else [])
  {
    if txs == [] {
      assert txs + [tx] == [tx] && [tx][1..] == [];
    } else {
      NoncesAppend(c, txs[1..], tx, a);
      assert (txs + [tx])[1..] == txs[1..] + [tx];
    }
  }

  /** Picking keeps every sender's count going; the nonce 0 a wrap would need never verifies. */
  lemma PickKeepsSender(v: View, picked: seq<Tx>, next: map<Address, uint64>, tx: Tx, from: Address, a: Address)
    requires SenderSound(v, picked, next, a)
    requires FromAddress(v.c, tx) == Some(from) && tx.nonce > 0
    requires tx.nonce == if from in next then next[from] else Add(Get(v.state, from).nonce, 1)
    ensures SenderSound(v, picked + [tx], next[from := Add(tx.nonce, 1)], a)
  {
    NoncesAppend(v.c, picked, tx, a);
  }

  lemma StepKeepsSenders(v: View, entries: seq<Entry>, i: nat, s: Progress)
    requires i < |entries| && SendersSound(v, s.picked, s.next)
    ensures SendersSound(v, Step(v, entries, i, s).picked, Step(v, entries, i, s).next)
  {
    var tx := WithChainId(entries[i].tx, v.chainId);
    var choice := Choose(v, entries, s.next, tx);
    if choice.Pick? {
      var picked, next := s.picked + [tx], s.next[choice.sender := Add(tx.nonce, 1)];
      forall a ensures SenderSound(v, picked, next, a) {
        PickKeepsSender(v, s.picked, s.next, tx, choice.sender, a);
      }
    }
  }

  lemma StepKeepsPicks(v: View, entries: seq<Entry>, limit: int, i: nat, s: Progress)
    requires i < |entries| && PicksSound(v, entries, limit, i, s) && |s.picked| < limit
    ensures PicksSound(v, entries, limit, i + 1, Step(v, entries, i, s))
  {
  }

  lemma StepKeepsEvictions(v: View, entries: seq<Entry>, i: nat, s: Progress)
    requires i < |entries| && EvictionsSound(v, entries, i, s)
    ensures EvictionsSound(v, entries, i + 1, Step(v, entries, i, s))
  {
  }

  lemma {:induction false} SelectFromSound(v: View, entries: seq<Entry>, limit: int, i: nat, s: Progress)
    requires i <= |entries| && PicksSound(v, entries, limit, i, s)
    requires EvictionsSound(v, entries, i, s) && SendersSound(v, s.picked, s.next)
    ensures
      var r := SelectFrom(v, entries, limit, i, s);
      && PicksSound(v, entries, limit, |entries|, r)
      && EvictionsSound(v, entries, |entries|, r)
      && SendersSound(v, r.picked, r.next)
    decreases |entries| - i
  {
    if i < |entries| && |s.picked| < limit {
      StepKeepsPicks(v, entries, limit, i, s);
      StepKeepsEvictions(v, entries, i, s);
      StepKeepsSenders(v, entries, i, s);
      SelectFromSound(v, entries, limit, i + 1, Step(v, entries, i, s));
    }
  }

  /** For every pool order: a subsequence within the limit, with every sender's nonces going on from the chain's. */
  lemma SelectionSound(v: View, entries: seq<Entry>, limit: int)
    ensures
      var r := Select(v, entries, limit);
      && PicksSound(v, entries, limit, |entries|, r)
      && EvictionsSound(v, entries, |entries|, r)
      && forall a :: CountsUpFrom(NoncesOf(v.c, r.picked, a), Get(v.state, a).nonce)
  {
    SelectFromSound(v, entries, limit, 0, START);
    var r := Select(v, entries, limit);
    forall a ensures CountsUpFrom(NoncesOf(v.c, r.picked, a), Get(v.state, a).nonce) {
      assert SenderSound(v, r.picked, r.next, a);
    }
  }

  /** A sender's next transaction, verified and affordable. */
  ghost predicate Mineable(v: View, e: Entry, a: Address) {
    var tx := WithChainId(e.tx, v.chainId);
    && VerifyForConsensus(v.c, tx, v.height)
    && FromAddress(v.c, tx) == Some(a)
    && tx.nonce == Add(Get(v.state, a).nonce, 1)
    && Debit(tx) <= Get(v.state, a).balance
  }

  lemma {:induction false} MineableSenderPickedFrom(
      v: View, entries: seq<Entry>, limit: int, i: nat, s: Progress, j: nat, a: Address)
    requires i <= |entries| && j < |entries| && Mineable(v, entries[j], a)
    requires i <= j || a in s.next
    requires |SelectFrom(v, entries, limit, i, s).picked| < limit
    ensures a in SelectFrom(v, entries, limit, i, s).next
    decreases |entries| - i
  {
    if i < |entries| && |s.picked| < limit {
      MineableSenderPickedFrom(v, entries, limit, i + 1, Step(v, entries, i, s), j, a);
    }
  }

  /** A selection with room left has a pick of every sender whose next transaction is in the pool and affordable. */
  lemma MineableSenderPicked(v: View, entries: seq<Entry>, limit: int, j: nat, a: Address)
    requires j < |entries| && Mineable(v, entries[j], a)
    requires |Select(v, entries, limit).picked| < limit
    ensures NoncesOf(v.c, Select(v, entries, limit).picked, a) != []
  {
    MineableSenderPickedFrom(v, entries, limit, 0, START, j, a);
    SelectFromSound(v, entries, limit, 0, START);
    var r := Select(v, entries, limit);
    assert SenderSound(v, r.picked, r.next, a);
  }

  ghost predicate FromPool(v: View, entries: seq<Entry>, tx: Tx) {
    exists e :: e in entries && tx == WithChainId(e.tx, v.chainId)
  }

  /** The picks of a sender come from pending entries of that sender. */
  lemma {:induction false} PickedNonceIsPending(v: View, entries: seq<Entry>, picked: seq<Tx>, a: Address, k: nat)
    requires forall tx :: tx in picked ==> FromPool(v, entries, tx)
    requires k < |NoncesOf(v.c, picked, a)|
    ensures Pending(v.c, entries, a, NoncesOf(v.c, picked, a)[k])
  {
    var own := FromAddress(v.c, picked[0]) == Some(a);
    if own && k == 0 {
      assert FromPool(v, entries, picked[0]);
      var e :| e in entries && picked[0] == WithChainId(e.tx, v.chainId);
      assert FromAddress(v.c, e.tx) == Some(a);
    } else {
      PickedNonceIsPending(v, entries, picked[1..], a, if own then k - 1 else k);
    }
  }

  /** No sender has both an evicted and a picked transaction. */
  lemma EvictedSendersNotPicked(v: View, entries: seq<Entry>, limit: int, k: nat)
    requires k < |Select(v, entries, limit).evictedAt|
    ensures Select(v, entries, limit).evictedAt[k] < |entries|
    ensures
      var from := FromAddress(v.c, entries[Select(v, entries, limit).evictedAt[k]].tx);
      from.Some? && NoncesOf(v.c, Select(v, entries, limit).picked, from.value) == []
  {
    SelectionSound(v, entries, limit);
    var r := Select(v, entries, limit);
    var e := entries[r.evictedAt[k]];
    assert EvictedWell(v, entries, e);
    var a := FromAddress(v.c, e.tx).value;
    assert CountsUpFrom(NoncesOf(v.c, r.picked, a), Get(v.state, a).nonce);
    if NoncesOf(v.c, r.picked, a) != [] {
      forall tx | tx in r.picked ensures FromPool(v, entries, tx) {
        var j :| 0 <= j < |r.picked| && r.picked[j] == tx;
        assert PickedWell(v, entries[r.pickedAt[j]], r.picked[j], r.pickedIds[j]);
        assert entries[r.pickedAt[j]] in entries;
      }
      PickedNonceIsPending(v, entries, r.picked, a, 0);
    }
  }

  // ----- on the ledger -----

  /** Transfers that continue every sender's nonce never meet the ledger's nonce check. */
  lemma {:induction false} CountingNoncesReplay(c: Crypto, copy: Copy, height: uint64, state: State, txs: seq<Tx>, i: nat)
    requires i <= |txs|
    requires forall a :: CountsUpFrom(NoncesOf(c, txs[i..], a), Get(state, a).nonce)
    ensures ApplyFrom(c, copy, height, state, txs, i).error != Some(BadNonce)
    decreases |txs| - i
  {
    if i < |txs| {
      var tx := txs[i];
      assert txs[i..][1..] == txs[i + 1..] && txs[i..][0] == tx;
      var o := ApplyTx(c, copy, height, state, tx, i == 0);
      if FromAddress(c, tx).Some? {
        var a := FromAddress(c, tx).value;
        assert NoncesOf(c, txs[i..], a)[0] == tx.nonce;
        assert CountsUpFrom(NoncesOf(c, txs[i..], a), Get(state, a).nonce);
      }
      if o.error.None? {
        forall a ensures CountsUpFrom(NoncesOf(c, txs[i + 1..], a), Get(o.state, a).nonce) {
          assert CountsUpFrom(NoncesOf(c, txs[i..], a), Get(state, a).nonce);
          DropFirst(c, copy, height, state, txs[i..], i == 0, a);
        }
        CountingNoncesReplay(c, copy, height, o.state, txs, i + 1);
      }
    }
  }

  lemma DropFirst(c: Crypto, copy: Copy, height: uint64, state: State, txs: seq<Tx>, first: bool, a: Address)
    requires txs != [] && ApplyTx(c, copy, height, state, txs[0], first).error.None?
    requires CountsUpFrom(NoncesOf(c, txs, a), Get(state, a).nonce)
    ensures CountsUpFrom(NoncesOf(c, txs[1..], a),
                         Get(ApplyTx(c, copy, height, state, txs[0], first).state, a).nonce)
  {
    TxAccount(c, copy, height, state, txs[0], first, a);
    NoncesSplit(c, txs, a);
    CountsUpRest(NoncesOf(c, [txs[0]], a), NoncesOf(c, txs[1..], a), Get(state, a).nonce);
  }

  lemma NoncesSplit(c: Crypto, txs: seq<Tx>, a: Address)
    requires txs != []
    ensures NoncesOf(c, txs, a) == NoncesOf(c, [txs[0]], a) + NoncesOf(c, txs[1..], a)
  {
    assert [txs[0]][1..] == [];
  }

  lemma CountsUpRest(some: seq<uint64>, rest: seq<uint64>, first: int)
    requires CountsUpFrom(some + rest, first)
    ensures CountsUpFrom(rest, first + |some|)
  {
    forall k | 0 <= k < |rest| ensures rest[k] == first + |some| + 1 + k {
      assert (some + rest)[|some| + k] == rest[k];
    }
  }

  /** The genesis credit leaves all nonces alone, so a nonce error can only come from the transactions. */
  lemma NonceErrorFromTxs(c: Crypto, p: MonetaryPolicy, copy: Copy, state: State, b: Block)
    requires ApplyBlock(c, p, copy, state, b).error == Some(BadNonce)
    ensures
      var o := CreditGenesis(p, copy, b.height, state);
      && (forall a :: Get(o.state, a).nonce == Get(state, a).nonce)
      && ApplyFrom(c, copy, b.height, o.state, b.txs, 0).error == Some(BadNonce)
  {
  }

  /** A block made of a coinbase and a selection is never refused for a nonce. */
  lemma SelectionMinesCleanly(v: View, p: MonetaryPolicy, copy: Copy, entries: seq<Entry>, limit: int, b: Block)
    requires |b.txs| > 0 && b.txs[0].kind == Coinbase && b.txs[1..] == Select(v, entries, limit).picked
    ensures ApplyBlock(v.c, p, copy, v.state, b).error != Some(BadNonce)
  {
    if ApplyBlock(v.c, p, copy, v.state, b).error == Some(BadNonce) {
      SelectionSound(v, entries, limit);
      NonceErrorFromTxs(v.c, p, copy, v.state, b);
      var paid := CreditGenesis(p, copy, b.height, v.state).state;
      assert b.txs[0..] == b.txs;
      forall a ensures CountsUpFrom(NoncesOf(v.c, b.txs, a), Get(paid, a).nonce) {
        assert CountsUpFrom(NoncesOf(v.c, b.txs[1..], a), Get(v.state, a).nonce);
        assert NoncesOf(v.c, b.txs, a) == NoncesOf(v.c, b.txs[1..], a);
      }
      CountingNoncesReplay(v.c, copy, b.height, paid, b.txs, 0);
    }
  }
}
