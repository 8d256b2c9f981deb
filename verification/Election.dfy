/** The order candidates are ranked in: `weightedSelectKey` and the comparator in blockchain/core/candidate_pool.go. */
module Election {
  import opened Machine
  import opened Masking
  import opened Sorting

  datatype Block = Block(hash: seq<uint8>, headerHeight: uint64, height: uint64, timestamp: int64)

  datatype Candidate = Candidate(block: Block, source: string)

  type Digest = d: seq<uint8> | |d| == 32 witness seq(32, _ => 0)

  /** SHA-256, kept abstract: every result holds whatever it is. */
  type Sha256 = string -> Digest

  // ----- keys -----

  function SourceMask(sha256: Sha256, source: string): (mask: seq<uint8>)
    ensures |mask| == 4
  {
    if source == "" then [0, 0, 0, 0] else sha256(source)[..4]
  }

  function Key(sha256: Sha256, c: Candidate): seq<uint8> {
    Masked(c.block.hash, SourceMask(sha256, c.source))
  }

  method WeightedSelectKey(sha256: Sha256, c: Candidate) returns (key: seq<uint8>)
    ensures key == Key(sha256, c)
  {
    key := MaskHash(c.block.hash, SourceMask(sha256, c.source));
  }

  /** The loop over the hash. */
  method MaskHash(hash: seq<uint8>, mask: seq<uint8>) returns (key: seq<uint8>)
    requires |mask| == 4
    ensures key == Masked(hash, mask)
  {
    var buffer := new uint8[|hash|](_ => 0);
    for i := 0 to |hash|
      invariant forall j :: 0 <= j < i ==> buffer[j] == Xor(hash[j], mask[j % 4])
    {
      buffer[i] := Xor(hash[i], mask[i % 4]);
    }
    key := buffer[..];
  }

  /** Byte by byte: the hash against the first four bytes of the source's digest, over and over; no source, no mask. */
  lemma KeyBytes(sha256: Sha256, c: Candidate, i: nat)
    requires i < |c.block.hash|
    ensures |Key(sha256, c)| == |c.block.hash|
    ensures Key(sha256, c)[i]
         == if c.source == "" then c.block.hash[i] else Xor(c.block.hash[i], sha256(c.source)[i % 4])
  {
    XorZero(c.block.hash[i]);
  }

  /** A key and its source give the block hash back, so one source's keys are as distinct as its hashes. */
  lemma KeyDeterminesHash(sha256: Sha256, c: Candidate, d: Candidate)
    requires c.source == d.source
    ensures Key(sha256, c) == Key(sha256, d) <==> c.block.hash == d.block.hash
  {
    MaskTwice(c.block.hash, SourceMask(sha256, c.source));
    MaskTwice(d.block.hash, SourceMask(sha256, d.source));
  }

  // ----- the comparator -----

  /** Byte by byte as far as both keys go, then by timestamp. */
  predicate KeyBefore(k: seq<uint8>, s: int64, l: seq<uint8>, t: int64) {
    if k == [] || l == [] then s < t
    else k[0] < l[0] || (k[0] == l[0] && KeyBefore(k[1..], s, l[1..], t))
  }

  predicate Earlier(sha256: Sha256, a: Candidate, b: Candidate) {
    KeyBefore(Key(sha256, a), a.block.timestamp, Key(sha256, b), b.block.timestamp)
  }

  function Order(sha256: Sha256): (Candidate, Candidate) -> bool {
    (a, b) => Earlier(sha256, a, b)
  }

  /** The comparing loop. */
  method CompareKeys(k: seq<uint8>, s: int64, l: seq<uint8>, t: int64) returns (before: bool)
    ensures before == KeyBefore(k, s, l, t)
  {
    var i := 0;
    while i < |k| && i < |l|
      invariant i <= |k| && i <= |l|
      invariant KeyBefore(k, s, l, t) == KeyBefore(k[i..], s, l[i..], t)
    {
      if k[i] < l[i] {
        return true;
      }
      if k[i] > l[i] {
        return false;
      }
      i := i + 1;
    }
    return s < t;
  }

  /** The keys agree in the first i bytes. */
  predicate AgreeBelow(k: seq<uint8>, l: seq<uint8>, i: nat) {
    i <= |k| && i <= |l| && forall j :: 0 <= j < i ==> k[j] == l[j]
  }

  /** The first byte in which they differ is lower. */
  predicate LowerAt(k: seq<uint8>, l: seq<uint8>, i: nat) {
    i < |k| && i < |l| && AgreeBelow(k, l, i) && k[i] < l[i]
  }

  /** As far as both go they agree. */
  predicate AgreeThroughout(k: seq<uint8>, l: seq<uint8>) {
    AgreeBelow(k, l, if |k| < |l| then |k| else |l|)
  }

  lemma AgreeStep(k: seq<uint8>, l: seq<uint8>, i: nat)
    requires k != [] && l != [] && i < |k| && i < |l|
    ensures AgreeBelow(k, l, i + 1) <==> k[0] == l[0] && AgreeBelow(k[1..], l[1..], i)
  {
    if k[0] == l[0] && AgreeBelow(k[1..], l[1..], i) {
      forall j | 0 <= j < i + 1 ensures k[j] == l[j] {
        assert j > 0 ==> k[1..][j - 1] == l[1..][j - 1];
      }
    }
  }

  /** The lower first differing byte comes first; keys that agree as far as both go are ordered by time. */
  lemma {:induction false} KeyBeforeIff(k: seq<uint8>, s: int64, l: seq<uint8>, t: int64)
    ensures KeyBefore(k, s, l, t) <==> (exists i: nat :: LowerAt(k, l, i)) || (AgreeThroughout(k, l) && s < t)
  {
    if k != [] && l != [] {
      KeyBeforeIff(k[1..], s, l[1..], t);
      forall i: nat | i < |k[1..]| && i < |l[1..]|
        ensures LowerAt(k, l, i + 1) <==> k[0] == l[0] && LowerAt(k[1..], l[1..], i)
      {
        AgreeStep(k, l, i);
      }
      AgreeStep(k, l, if |k| < |l| then |k| - 1 else |l| - 1);
      if k[0] < l[0] {
        assert LowerAt(k, l, 0);
      } else if i: nat :| LowerAt(k[1..], l[1..], i) {
        assert k[0] == l[0] ==> LowerAt(k, l, i + 1);
      }
      if i: nat :| LowerAt(k, l, i) {
        assert i > 0 ==> LowerAt(k[1..], l[1..], i - 1);
      }
    }
  }

  lemma {:induction false} KeyBeforeAsymmetric(k: seq<uint8>, s: int64, l: seq<uint8>, t: int64)
    requires KeyBefore(k, s, l, t)
    ensures !KeyBefore(l, t, k, s)
  {
    if k != [] && l != [] && k[0] == l[0] {
      KeyBeforeAsymmetric(k[1..], s, l[1..], t);
    }
  }

  lemma {:induction false} KeyTies(k: seq<uint8>, s: int64, l: seq<uint8>, t: int64)
    requires |k| == |l|
    ensures !KeyBefore(k, s, l, t) && !KeyBefore(l, t, k, s) <==> k == l && s == t
  {
    if k != [] && k[0] == l[0] {
      KeyTies(k[1..], s, l[1..], t);
      assert k == [k[0]] + k[1..] && l == [l[0]] + l[1..];
    }
  }

  lemma {:induction false} NotBeforeTransitive(
    k: seq<uint8>, s: int64, l: seq<uint8>, t: int64, m: seq<uint8>, u: int64)
    requires |k| == |l| == |m|
    requires !KeyBefore(l, t, k, s) && !KeyBefore(m, u, l, t)
    ensures !KeyBefore(m, u, k, s)
  {
    if k != [] && k[0] == l[0] == m[0] {
      NotBeforeTransitive(k[1..], s, l[1..], t, m[1..], u);
    }
  }

  ghost predicate SameLengths(items: multiset<Candidate>) {
    forall a, b :: a in items && b in items ==> |a.block.hash| == |b.block.hash|
  }

  /** No two different candidates agree in key and timestamp. */
  ghost predicate NoTies(sha256: Sha256, items: multiset<Candidate>) {
    forall a, b :: a in items && b in items && a != b ==>
      Key(sha256, a) != Key(sha256, b) || a.block.timestamp != b.block.timestamp
  }

  /** Over hashes of one length the comparator is a strict weak order. */
  lemma OrderIsStrictWeak(sha256: Sha256, items: multiset<Candidate>)
    requires SameLengths(items)
    ensures StrictWeakOrder(Order(sha256), items)
  {
    forall a, b | Order(sha256)(a, b) ensures !Order(sha256)(b, a) {
      KeyBeforeAsymmetric(Key(sha256, a), a.block.timestamp, Key(sha256, b), b.block.timestamp);
    }
    forall a, b, c | a in items && b in items && c in items && !Order(sha256)(b, a) && !Order(sha256)(c, b)
      ensures !Order(sha256)(c, a)
    {
      NotBeforeTransitive(
        Key(sha256, a), a.block.timestamp, Key(sha256, b), b.block.timestamp, Key(sha256, c), c.block.timestamp);
    }
  }

  /** It leaves two candidates undecided exactly when they agree in key and timestamp. */
  lemma SeparatesIffNoTies(sha256: Sha256, items: multiset<Candidate>)
    requires SameLengths(items)
    ensures Separates(Order(sha256), items) <==> NoTies(sha256, items)
  {
    forall a, b | a in items && b in items
      ensures Order(sha256)(a, b) || Order(sha256)(b, a)
        <==> Key(sha256, a) != Key(sha256, b) || a.block.timestamp != b.block.timestamp
    {
      KeyTies(Key(sha256, a), a.block.timestamp, Key(sha256, b), b.block.timestamp);
    }
  }

  /** The candidate of a source whose key is this one. */
  function WithKey(sha256: Sha256, key: seq<uint8>, timestamp: int64, source: string): Candidate {
    Candidate(Block(Masked(key, SourceMask(sha256, source)), 1, 1, timestamp), source)
  }

  lemma KeyOfWithKey(sha256: Sha256, key: seq<uint8>, timestamp: int64, source: string)
    ensures Key(sha256, WithKey(sha256, key, timestamp, source)) == key
  {
    MaskTwice(key, SourceMask(sha256, source));
  }

  /** Over hashes of different lengths it can run in a circle, whatever the sources. */
  lemma LengthsCanCycle(sha256: Sha256, one: string, two: string, three: string)
    ensures
      var a, b, c :=
        WithKey(sha256, [1, 1], 1, one), WithKey(sha256, [1], 2, two), WithKey(sha256, [1, 0], 3, three);
      Earlier(sha256, a, b) && Earlier(sha256, b, c) && Earlier(sha256, c, a)
  {
    KeyOfWithKey(sha256, [1, 1], 1, one);
    KeyOfWithKey(sha256, [1], 2, two);
    KeyOfWithKey(sha256, [1, 0], 3, three);
    KeyCycle();
  }

  lemma KeyCycle()
    ensures KeyBefore([1, 1], 1, [1], 2) && KeyBefore([1], 2, [1, 0], 3) && KeyBefore([1, 0], 3, [1, 1], 1)
  {
    assert [1, 1][1..] == [1] && [1, 0][1..] == [0] && [1][1..] == [];
  }

  // ----- the winner -----

  function Ranking(sha256: Sha256, candidates: seq<Candidate>): seq<Candidate> {
    Sort(Order(sha256), candidates)
  }

  /** Any two arrival orders of candidates without ties rank them alike, first to last. */
  lemma OrderOfArrivalIrrelevant(sha256: Sha256, some: seq<Candidate>, other: seq<Candidate>)
    requires multiset(some) == multiset(other)
    requires SameLengths(multiset(some)) && NoTies(sha256, multiset(some))
    ensures Ranking(sha256, some) == Ranking(sha256, other)
  {
    var items := multiset(some);
    OrderIsStrictWeak(sha256, items);
    SeparatesIffNoTies(sha256, items);
    SortSorts(Order(sha256), some);
    SortSorts(Order(sha256), other);
    SortedUnique(Order(sha256), Ranking(sha256, some), Ranking(sha256, other));
  }

  /** Nobody is before this candidate. */
  ghost predicate Least(sha256: Sha256, items: multiset<Candidate>, c: Candidate) {
    c in items && forall d :: d in items ==> !Earlier(sha256, d, c)
  }

  /** An outcome some sorting algorithm could give. */
  ghost predicate CanRank(sha256: Sha256, ranking: seq<Candidate>, items: multiset<Candidate>) {
    multiset(ranking) == items && Sorted(Order(sha256), ranking)
  }

  lemma FirstIsLeast(sha256: Sha256, ranking: seq<Candidate>, items: multiset<Candidate>)
    requires CanRank(sha256, ranking, items) && ranking != []
    ensures Least(sha256, items, ranking[0])
  {
    assert ranking[0] in multiset(ranking);
    forall d | d in items ensures !Earlier(sha256, d, ranking[0]) {
      assert d in multiset(ranking);
      var i :| 0 <= i < |ranking| && ranking[i] == d;
      if i > 0 {
        assert !Order(sha256)(ranking[i], ranking[0]);
      } else if Earlier(sha256, d, d) {
        KeyBeforeAsymmetric(Key(sha256, d), d.block.timestamp, Key(sha256, d), d.block.timestamp);
      }
    }
  }

  lemma LeastCanBeFirst(sha256: Sha256, candidates: seq<Candidate>, k: nat) returns (ranking: seq<Candidate>)
    requires StrictWeakOrder(Order(sha256), multiset(candidates)) && k < |candidates|
    requires Least(sha256, multiset(candidates), candidates[k])
    ensures CanRank(sha256, ranking, multiset(candidates)) && ranking != [] && ranking[0] == candidates[k]
  {
    var c, rest := candidates[k], candidates[..k] + candidates[k + 1..];
    assert candidates == candidates[..k] + [c] + candidates[k + 1..];
    assert multiset(candidates) == multiset(rest) + multiset{c};
    Shrink(Order(sha256), multiset(candidates), multiset(rest));
    SortSorts(Order(sha256), rest);
    var sorted := Ranking(sha256, rest);
    ranking := [c] + sorted;
    forall i, j | 0 <= i < j < |ranking| ensures !Order(sha256)(ranking[j], ranking[i]) {
      assert sorted[j - 1] in multiset(sorted);
      assert i > 0 ==> !Order(sha256)(sorted[j - 1], sorted[i - 1]);
    }
  }

  ghost predicate OneWinner(sha256: Sha256, items: multiset<Candidate>) {
    forall r, q :: CanRank(sha256, r, items) && CanRank(sha256, q, items) && r != [] && q != [] ==> r[0] == q[0]
  }

  ghost predicate OneLeast(sha256: Sha256, items: multiset<Candidate>) {
    forall c, d :: Least(sha256, items, c) && Least(sha256, items, d) ==> c == d
  }

  /**
   Where the comparator is a strict weak order, as it is for hashes of one length, every sorting algorithm and every order
   of arrival give the same winner exactly when the least candidate is unique.
   */
  lemma AnySortWinnerIff(sha256: Sha256, candidates: seq<Candidate>)
    requires StrictWeakOrder(Order(sha256), multiset(candidates))
    ensures OneWinner(sha256, multiset(candidates)) <==> OneLeast(sha256, multiset(candidates))
  {
    var items := multiset(candidates);
    if OneLeast(sha256, items) {
      forall r, q | CanRank(sha256, r, items) && CanRank(sha256, q, items) && r != [] && q != []
        ensures r[0] == q[0]
      {
        FirstIsLeast(sha256, r, items);
        FirstIsLeast(sha256, q, items);
      }
    }
    if OneWinner(sha256, items) {
      forall c, d | Least(sha256, items, c) && Least(sha256, items, d) ensures c == d {
        assert c in items && d in items;
        var i :| 0 <= i < |candidates| && candidates[i] == c;
        var j :| 0 <= j < |candidates| && candidates[j] == d;
        var r := LeastCanBeFirst(sha256, candidates, i);
        var q := LeastCanBeFirst(sha256, candidates, j);
      }
    }
  }

  function Winner(sha256: Sha256, candidates: seq<Candidate>): Candidate
    requires candidates != []
  {
    SortKeeps(Order(sha256), candidates);
    SameLength(Ranking(sha256, candidates), candidates);
    Ranking(sha256, candidates)[0]
  }

  /** Every order of arrival gives the same winner. */
  ghost predicate WinnerFixed(sha256: Sha256, candidates: seq<Candidate>)
    requires candidates != []
  {
    forall order :: multiset(order) == multiset(candidates) && order != [] ==>
      Winner(sha256, order) == Winner(sha256, candidates)
  }

  /** Some candidate is before every other one. */
  ghost predicate SomeBeatsAll(sha256: Sha256, candidates: seq<Candidate>) {
    exists w :: w in candidates && BeatsOthers(sha256, candidates, w)
  }

  ghost predicate BeatsOthers(sha256: Sha256, candidates: seq<Candidate>, w: Candidate) {
    forall d :: d in candidates && d != w ==> Earlier(sha256, w, d)
  }

  lemma BestAlwaysWins(sha256: Sha256, candidates: seq<Candidate>, w: Candidate)
    requires AllDifferent(candidates) && w in candidates && BeatsOthers(sha256, candidates, w)
    ensures Winner(sha256, candidates) == w
  {
    forall d | d in candidates && d != w ensures Order(sha256)(w, d) && !Order(sha256)(d, w) {
      NotBoth(sha256, w, d);
    }
    BestIsFirst(Order(sha256), candidates, w);
  }

  lemma SameItems(some: seq<Candidate>, other: seq<Candidate>)
    requires multiset(some) == multiset(other)
    ensures forall c :: c in some <==> c in other
    ensures AllDifferent(some) ==> AllDifferent(other)
  {
    forall c ensures c in some <==> c in other {
      assert c in some <==> c in multiset(some);
      assert c in other <==> c in multiset(other);
    }
    if AllDifferent(some) && !AllDifferent(other) {
      var i, j :| 0 <= i < j < |other| && other[i] == other[j];
      Twice(other, i, j);
      Once(some, other[i]);
    }
  }

  lemma Twice(s: seq<Candidate>, i: nat, j: nat)
    requires i < j < |s| && s[i] == s[j]
    ensures multiset(s)[s[i]] >= 2
  {
    assert s == s[..j] + [s[j]] + s[j + 1..];
    assert s[i] in s[..j];
  }

  lemma {:induction false} Once(s: seq<Candidate>, c: Candidate)
    requires AllDifferent(s)
    ensures multiset(s)[c] <= 1
  {
    if s != [] {
      Once(s[..|s| - 1], c);
      SplitLast(s);
      if c == s[|s| - 1] {
        assert c !in s[..|s| - 1];
      }
    }
  }

  /** An order of arrival with d first and w second. */
  lemma Rearranged(s: seq<Candidate>, d: Candidate, w: Candidate) returns (rest: seq<Candidate>)
    requires AllDifferent(s) && d in s && w in s && d != w
    ensures multiset([d, w] + rest) == multiset(s) && w !in rest
  {
    var one := WithoutOne(s, d);
    assert multiset(s)[w] == multiset(one)[w] > 0;
    rest := WithoutOne(one, w);
    assert multiset([d, w] + rest) == multiset{d} + multiset{w} + multiset(rest);
    Once(s, w);
    assert multiset(one)[w] == multiset(rest)[w] + 1;
    assert w !in multiset(rest);
  }

  lemma WithoutOne(s: seq<Candidate>, c: Candidate) returns (rest: seq<Candidate>)
    requires c in s
    ensures multiset(rest) + multiset{c} == multiset(s)
  {
    var i :| 0 <= i < |s| && s[i] == c;
    rest := s[..i] + s[i + 1..];
    assert s == s[..i] + [c] + s[i + 1..];
  }

  lemma BestFixesWinner(sha256: Sha256, candidates: seq<Candidate>, w: Candidate)
    requires AllDifferent(candidates) && w in candidates && BeatsOthers(sha256, candidates, w)
    ensures WinnerFixed(sha256, candidates)
  {
    BestAlwaysWins(sha256, candidates, w);
    forall order | multiset(order) == multiset(candidates) && order != []
      ensures Winner(sha256, order) == Winner(sha256, candidates)
    {
      SameItems(candidates, order);
      BestAlwaysWins(sha256, order, w);
    }
  }

  /** A candidate that is not before some other one loses in some order of arrival. */
  lemma LosesSomewhere(sha256: Sha256, candidates: seq<Candidate>, d: Candidate, w: Candidate)
      returns (order: seq<Candidate>)
    requires AllDifferent(candidates) && d in candidates && w in candidates && d != w && !Earlier(sha256, w, d)
    ensures multiset(order) == multiset(candidates) && order != [] && Winner(sha256, order) != w
  {
    var rest := Rearranged(candidates, d, w);
    order := [d, w] + rest;
    SecondStaysBehind(Order(sha256), d, w, rest);
  }

  /**
   For hashes of any lengths, and candidates that differ, as those in a pool do: the winner does not depend on the order
   of arrival exactly when some candidate is before every other one.
   */
  lemma WinnerFixedIff(sha256: Sha256, candidates: seq<Candidate>)
    requires candidates != [] && AllDifferent(candidates)
    ensures WinnerFixed(sha256, candidates) <==> SomeBeatsAll(sha256, candidates)
  {
    if SomeBeatsAll(sha256, candidates) {
      var w :| w in candidates && BeatsOthers(sha256, candidates, w);
      BestFixesWinner(sha256, candidates, w);
    } else {
      var w := Winner(sha256, candidates);
      WinnerTakesPart(sha256, candidates);
      assert !BeatsOthers(sha256, candidates, w);
      var d :| d in candidates && d != w && !Earlier(sha256, w, d);
      var order := LosesSomewhere(sha256, candidates, d, w);
    }
  }

  lemma WinnerTakesPart(sha256: Sha256, candidates: seq<Candidate>)
    requires candidates != []
    ensures Winner(sha256, candidates) in candidates
  {
    SortKeeps(Order(sha256), candidates);
    assert Winner(sha256, candidates) in multiset(Ranking(sha256, candidates));
  }

  /** In particular, without ties. */
  lemma NoTiesOneLeast(sha256: Sha256, items: multiset<Candidate>)
    requires SameLengths(items) && NoTies(sha256, items)
    ensures OneLeast(sha256, items)
  {
    SeparatesIffNoTies(sha256, items);
    forall c, d | Least(sha256, items, c) && Least(sha256, items, d) ensures c == d {
      assert c != d ==> Order(sha256)(c, d) || Order(sha256)(d, c);
    }
  }

  lemma NotBoth(sha256: Sha256, a: Candidate, b: Candidate)
    requires Earlier(sha256, a, b)
    ensures !Order(sha256)(b, a)
  {
    KeyBeforeAsymmetric(Key(sha256, a), a.block.timestamp, Key(sha256, b), b.block.timestamp);
  }
}
