/** Which pool entries a selection picks and which it evicts, told from the entries and the chain's state alone. */
module SelectionRule {
  import opened Machine
  import opened Ledger
  import opened LedgerLaws
  import opened Selection
  import opened BlockRule

  /** The entry's transaction as it would be mined. */
  function Filled(v: View, e: Entry): Tx {
    WithChainId(e.tx, v.chainId)
  }

  /** The transactions picked at the positions below n. */
  function PicksBelow(v: View, entries: seq<Entry>, at: seq<nat>, n: nat): seq<Tx>
    requires n <= |entries|
  {
    if n == 0 then [] else PicksBelow(v, entries, at, n - 1) + if n - 1 in at then [Filled(v, entries[n - 1])] else []
  }

  predicate VerifiedTransfer(v: View, tx: Tx) {
    tx.kind == Transfer && WellFormed(v.c, tx, v.height, false)
  }

  /** A verified transfer, next in its sender's count behind the picks so far, and within the sender's chain balance. */
  predicate Wanted(v: View, picked: seq<Tx>, tx: Tx) {
    var a := v.c.addressOf(tx.fromPubKey);
    && VerifiedTransfer(v, tx)
    && tx.nonce == Get(v.state, a).nonce + |NoncesOf(v.c, picked, a)| + 1
    && (tx.amount + tx.fee) % TWO64 <= Get(v.state, a).balance
  }

  /** A verified transfer of a sender with no pick so far, above the chain's next nonce and with nothing pending between. */
  ghost predicate Stranded(v: View, entries: seq<Entry>, picked: seq<Tx>, tx: Tx) {
    var a := v.c.addressOf(tx.fromPubKey);
    var next := (Get(v.state, a).nonce + 1) % TWO64;
    && VerifiedTransfer(v, tx)
    && NoncesOf(v.c, picked, a) == []
    && next < tx.nonce
    && forall n: uint64 :: next <= n < tx.nonce ==> !Pending(v.c, entries, a, n)
  }

  /** Position i is picked exactly if wanted and evicted exactly if stranded, as long as the block has room. */
  ghost predicate DecidedAt(v: View, entries: seq<Entry>, limit: int, s: Progress, i: nat)
    requires i < |entries|
  {
    var before, tx := PicksBelow(v, entries, s.pickedAt, i), Filled(v, entries[i]);
    && (i in s.pickedAt <==> |before| < limit && Wanted(v, before, tx))
    && (i in s.evictedAt <==> |before| < limit && Stranded(v, entries, before, tx))
  }

  lemma ChoiceIff(v: View, entries: seq<Entry>, s: Progress, tx: Tx)
    requires SendersSound(v, s.picked, s.next)
    ensures Choose(v, entries, s.next, tx).Pick? <==> Wanted(v, s.picked, tx)
    ensures Choose(v, entries, s.next, tx).Evict? <==> Stranded(v, entries, s.picked, tx)
  {
    WellFormedIff(v.c, tx, v.height, false);
    var a := v.c.addressOf(tx.fromPubKey);
    assert SenderSound(v, s.picked, s.next, a);
    DebitIsModulo(tx);
  }

  lemma {:induction false} PicksStable(v: View, entries: seq<Entry>, at: seq<nat>, at': seq<nat>, n: nat)
    requires n <= |entries| && forall j :: 0 <= j < n ==> (j in at <==> j in at')
    ensures PicksBelow(v, entries, at, n) == PicksBelow(v, entries, at', n)
  {
    if n > 0 {
      PicksStable(v, entries, at, at', n - 1);
    }
  }

  lemma {:induction false} PicksGrow(v: View, entries: seq<Entry>, at: seq<nat>, m: nat, n: nat)
    requires m <= n <= |entries|
    ensures |PicksBelow(v, entries, at, m)| <= |PicksBelow(v, entries, at, n)|
    decreases n
  {
    if m < n {
      PicksGrow(v, entries, at, m, n - 1);
    }
  }

  /** Positions below n are decided, and nothing is said about later ones. */
  ghost predicate DecidedBelow(v: View, entries: seq<Entry>, limit: int, s: Progress, n: nat)
    requires n <= |entries|
  {
    && (forall j :: j in s.pickedAt || j in s.evictedAt ==> j < n)
    && s.picked == PicksBelow(v, entries, s.pickedAt, n)
    && forall i :: 0 <= i < n ==> DecidedAt(v, entries, limit, s, i)
  }

  lemma StillDecided(v: View, entries: seq<Entry>, limit: int, s: Progress, t: Progress, i: nat)
    requires i < |entries| && DecidedAt(v, entries, limit, s, i)
    requires forall j :: 0 <= j <= i ==> (j in s.pickedAt <==> j in t.pickedAt)
    requires i in s.evictedAt <==> i in t.evictedAt
    ensures DecidedAt(v, entries, limit, t, i)
  {
    PicksStable(v, entries, s.pickedAt, t.pickedAt, i);
  }

  lemma StepDecides(v: View, entries: seq<Entry>, limit: int, n: nat, s: Progress)
    requires n < |entries| && |s.picked| < limit
    requires DecidedBelow(v, entries, limit, s, n) && SendersSound(v, s.picked, s.next)
    ensures DecidedBelow(v, entries, limit, Step(v, entries, n, s), n + 1)
  {
    var t, tx := Step(v, entries, n, s), Filled(v, entries[n]);
    ChoiceIff(v, entries, s, tx);
    forall j | 0 <= j < n
      ensures j in s.pickedAt <==> j in t.pickedAt
      ensures j in s.evictedAt <==> j in t.evictedAt
    {
    }
    assert n in t.pickedAt <==> Choose(v, entries, s.next, tx).Pick?;
    assert n in t.evictedAt <==> Choose(v, entries, s.next, tx).Evict?;
    PicksStable(v, entries, s.pickedAt, t.pickedAt, n);
    forall i | 0 <= i < n ensures DecidedAt(v, entries, limit, t, i) {
      StillDecided(v, entries, limit, s, t, i);
    }
  }

  lemma {:induction false} SelectFromDecides(v: View, entries: seq<Entry>, limit: int, n: nat, s: Progress)
    requires n <= |entries| && DecidedBelow(v, entries, limit, s, n) && SendersSound(v, s.picked, s.next)
    ensures forall i :: 0 <= i < |entries| ==> DecidedAt(v, entries, limit, SelectFrom(v, entries, limit, n, s), i)
    decreases |entries| - n
  {
    if n < |entries| && |s.picked| < limit {
      StepDecides(v, entries, limit, n, s);
      StepKeepsSenders(v, entries, n, s);
      SelectFromDecides(v, entries, limit, n + 1, Step(v, entries, n, s));
    } else {
      forall i | n <= i < |entries| ensures DecidedAt(v, entries, limit, s, i) {
        PicksGrow(v, entries, s.pickedAt, n, i);
      }
    }
  }

  /**
   For every pool in every order, every state and every limit, at every position: as long as there is room, an entry is
   picked exactly if it is wanted and evicted exactly if it is stranded; without room it is neither.
   */
  lemma SelectionExact(v: View, entries: seq<Entry>, limit: int)
    ensures forall i :: 0 <= i < |entries| ==> DecidedAt(v, entries, limit, Select(v, entries, limit), i)
  {
    forall a ensures SenderSound(v, [], map[], a) {
    }
    SelectFromDecides(v, entries, limit, 0, START);
  }

  /** No other choice of positions has this. */
  lemma {:induction false} SelectionUnique(
      v: View, entries: seq<Entry>, limit: int, s: Progress, t: Progress, n: nat)
    requires n <= |entries|
    requires forall i :: 0 <= i < |entries| ==> DecidedAt(v, entries, limit, s, i)
    requires forall i :: 0 <= i < |entries| ==> DecidedAt(v, entries, limit, t, i)
    ensures forall i :: 0 <= i < n ==> (i in s.pickedAt <==> i in t.pickedAt) && (i in s.evictedAt <==> i in t.evictedAt)
  {
    if n > 0 {
      SelectionUnique(v, entries, limit, s, t, n - 1);
      PicksStable(v, entries, s.pickedAt, t.pickedAt, n - 1);
      assert DecidedAt(v, entries, limit, s, n - 1) && DecidedAt(v, entries, limit, t, n - 1);
    }
  }
}
