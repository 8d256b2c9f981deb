/** The arithmetic of a proportional distribution with integer shares, over the maps of a contract. */
module Shares {
  import opened Machine
  import opened Sums

  type Address = string

  // ----- base shares -----

  /** weight * pool / total, with the product on uint64. */
  function Base(weight: uint64, pool: uint64, total: uint64): uint64
    requires total > 0
  {
    Mul(weight, pool) / total
  }

  lemma Distribute(a: int, x: int, y: int)
    ensures a * (x + y) == a * x + a * y
  {
  }

  lemma Scale(a: nat, x: int, y: int)
    requires x <= y
    ensures a * x <= a * y
  {
  }

  lemma Cancel(a: nat, x: int, y: int)
    requires a > 0 && a * x <= a * y
    ensures x <= y
  {
    if x > y {
      Scale(a, y + 1, x);
      Distribute(a, y, 1);
    }
  }

  lemma QuotientBelow(x: nat, y: nat, total: nat)
    requires total > 0 && x <= y
    ensures total * (x / total) <= y
  {
  }

  lemma QuotientAbove(x: nat, total: nat)
    requires total > 0
    ensures total * (x / total) >= x - (total - 1)
  {
  }

  /** A base share is never more than its part of the pool. */
  lemma BaseBelow(weight: uint64, pool: uint64, total: uint64)
    requires total > 0
    ensures total * Base(weight, pool, total) <= pool * weight
    ensures weight * pool >= TWO64 ==> total * Base(weight, pool, total) <= pool * weight - TWO64
  {
    MulNonNegative(weight, pool);
    if weight * pool >= TWO64 {
      QuotientBelow(Mul(weight, pool), weight * pool - TWO64, total);
    } else {
      QuotientBelow(Mul(weight, pool), weight * pool, total);
    }
  }

  /** Without wrap-around it is less than one token short of it, and exactly it for weight 0. */
  lemma BaseAbove(weight: uint64, pool: uint64, total: uint64)
    requires total > 0 && weight * pool < TWO64
    ensures total * Base(weight, pool, total) >= pool * weight - (total - 1) * (if weight > 0 then 1 else 0)
  {
    MulNonNegative(weight, pool);
    QuotientAbove(weight * pool, total);
  }

  // ----- comparing sums entry by entry -----

  lemma {:induction false} SumsCompare<K>(b: map<K, int>, w: map<K, int>, c: int, d: int)
    requires b.Keys == w.Keys && forall k :: k in b ==> c * b[k] <= d * w[k]
    ensures c * MapSum(b) <= d * MapSum(w)
    decreases |b|
  {
    if b == map[] {
      assert w == map[];
    } else {
      var k :| k in b;
      SplitOff(b, k);
      SplitOff(w, k);
      SumsCompare(b - {k}, w - {k}, c, d);
      Distribute(c, b[k], MapSum(b - {k}));
      Distribute(d, w[k], MapSum(w - {k}));
    }
  }

  /** The entries at one key compare. */
  predicate Compares(b: int, w: int, q: int, c: int, d: int, e: int) {
    c * b >= d * w - e * q
  }

  lemma {:induction false} SumsCompareBelow<K>(b: map<K, int>, w: map<K, int>, q: map<K, int>, c: int, d: int, e: int)
    requires b.Keys == w.Keys == q.Keys && forall k :: k in b ==> Compares(b[k], w[k], q[k], c, d, e)
    ensures Compares(MapSum(b), MapSum(w), MapSum(q), c, d, e)
    decreases |b|
  {
    if b == map[] {
      assert w == map[] && q == map[];
    } else {
      var k :| k in b;
      SplitOff(b, k);
      SplitOff(w, k);
      SplitOff(q, k);
      SumsCompareBelow(b - {k}, w - {k}, q - {k}, c, d, e);
      CompareStep(c, b[k], MapSum(b - {k}), d, w[k], MapSum(w - {k}), e, q[k], MapSum(q - {k}));
    }
  }

  lemma CompareStep(c: int, b: int, bs: int, d: int, w: int, ws: int, e: int, q: int, qs: int)
    requires Compares(b, w, q, c, d, e) && Compares(bs, ws, qs, c, d, e)
    ensures Compares(b + bs, w + ws, q + qs, c, d, e)
  {
    Distribute(c, b, bs);
    Distribute(d, w, ws);
    Distribute(e, q, qs);
  }

  // ----- a distribution -----

  function Bases<K>(weights: map<K, uint64>, pool: uint64, total: uint64): map<K, uint64>
    requires total > 0
  {
    map k | k in weights :: Base(weights[k], pool, total)
  }

  /** How many weights are not 0. */
  ghost function Count<K>(weights: map<K, uint64>): int {
    MapSum(map k | k in weights :: if weights[k] > 0 then 1 else 0)
  }

  /** Every product fits into uint64. */
  ghost predicate NoWrap<K>(weights: map<K, uint64>, pool: uint64) {
    forall k :: k in weights ==> weights[k] * pool < TWO64
  }

  /** What the base shares leave of the pool. */
  ghost function Remainder<K>(weights: map<K, uint64>, pool: uint64): int
    requires 0 < MapSum(weights) < TWO64
  {
    pool - MapSum(Bases(weights, pool, MapSum(weights)))
  }

  /** Base shares never exceed the pool, wrapped or not. */
  lemma BasesFitPool<K>(weights: map<K, uint64>, pool: uint64)
    requires 0 < MapSum(weights) < TWO64
    ensures 0 <= Remainder(weights, pool) <= pool
    ensures forall k :: k in weights ==> Base(weights[k], pool, MapSum(weights)) <= pool - Remainder(weights, pool)
  {
    var total := MapSum(weights);
    var bases := Bases(weights, pool, total);
    forall k | k in weights ensures total * bases[k] <= pool * weights[k] {
      BaseBelow(weights[k], pool, total);
    }
    SumsCompare(bases, weights, total, pool);
    Cancel(total, MapSum(bases), pool);
    SumBounds(bases);
    forall k | k in weights ensures Base(weights[k], pool, total) <= MapSum(bases) {
      assert bases[k] == Base(weights[k], pool, total);
    }
  }

  lemma SmallRemainder(total: nat, n: nat, pool: int, given: int)
    requires n > 0 && total > 0 && total * given >= pool * total - (total - 1) * n
    ensures pool - given < n
  {
    if pool - given >= n {
      Scale(total, n, pool - given);
      Distribute(total, pool, -given);
      Distribute(n, total, -1);
    }
  }

  lemma LargeRemainder(total: nat, n: nat, pool: int, given: int)
    requires total <= 255 * n && n <= 0x1000_0000 && total * given <= pool * total - TWO64
    ensures pool - given >= n
  {
    if pool - given < n {
      Scale(total, pool - given, n);
      Distribute(total, pool, -given);
      Scale(n, total, 255 * n);
      Scale(n, 255 * n, 255 * 0x1000_0000);
    }
  }

  lemma SmallRemainderWithoutWrap<K>(weights: map<K, uint64>, pool: uint64)
    requires 0 < MapSum(weights) < TWO64 && NoWrap(weights, pool) && Count(weights) > 0
    ensures Remainder(weights, pool) < Count(weights)
  {
    var total := MapSum(weights);
    var bases := Bases(weights, pool, total);
    var ones := map k | k in weights :: if weights[k] > 0 then 1 else 0;
    forall k | k in weights ensures Compares(bases[k], weights[k], ones[k], total, pool, total - 1) {
      BaseAbove(weights[k], pool, total);
    }
    SumsCompareBelow(bases, weights, ones, total, pool, total - 1);
    SmallRemainder(total, Count(weights), pool, MapSum(bases));
  }

  /** A wrapped product loses at least 2^64 / total of the pool. */
  lemma WrapLoses<K>(weights: map<K, uint64>, pool: uint64, k: K)
    requires 0 < MapSum(weights) < TWO64 && k in weights && weights[k] * pool >= TWO64
    ensures MapSum(weights) * MapSum(Bases(weights, pool, MapSum(weights))) <= pool * MapSum(weights) - TWO64
  {
    var total := MapSum(weights);
    var bases := Bases(weights, pool, total);
    var rest, restWeights := bases - {k}, weights - {k};
    forall j | j in rest ensures total * rest[j] <= pool * restWeights[j] {
      BaseBelow(weights[j], pool, total);
    }
    SplitOff(bases, k);
    SplitOff(weights, k);
    SumsCompare(rest, restWeights, total, pool);
    BaseBelow(weights[k], pool, total);
    Distribute(total, bases[k], MapSum(rest));
    Distribute(pool, weights[k], MapSum(restWeights));
  }

  /** The remainder is below the number of weighted entries exactly when no product wrapped. */
  lemma RemainderBelowCount<K>(weights: map<K, uint64>, pool: uint64)
    requires 0 < MapSum(weights) < TWO64 && 0 < Count(weights)
    requires forall k :: k in weights ==> weights[k] <= 255
    ensures NoWrap(weights, pool) ==> Remainder(weights, pool) < Count(weights)
    ensures Count(weights) <= 0x1000_0000 && Remainder(weights, pool) < Count(weights) ==> NoWrap(weights, pool)
  {
    if NoWrap(weights, pool) {
      SmallRemainderWithoutWrap(weights, pool);
    } else if Count(weights) <= 0x1000_0000 {
      var k :| k in weights && weights[k] * pool >= TWO64;
      LargeRemainderWithWrap(weights, pool, k);
    }
  }

  lemma LargeRemainderWithWrap<K>(weights: map<K, uint64>, pool: uint64, k: K)
    requires 0 < MapSum(weights) < TWO64 && 0 < Count(weights) <= 0x1000_0000
    requires forall k :: k in weights ==> weights[k] <= 255
    requires k in weights && weights[k] * pool >= TWO64
    ensures Remainder(weights, pool) >= Count(weights)
  {
    WrapLoses(weights, pool, k);
    var total := MapSum(weights);
    var ones := map k | k in weights :: if weights[k] > 0 then 1 else 0;
    SumsCompare(weights, ones, 1, 255);
    LargeRemainder(total, Count(weights), pool, MapSum(Bases(weights, pool, total)));
  }

  // ----- sums along a list -----

  function Total(xs: seq<nat>): nat {
    if xs == [] then 0 else Total(xs[..|xs| - 1]) + xs[|xs| - 1]
  }

  // ----- the rewards map -----

  /** The map the first pass builds: a later node with the same address overwrites an earlier one. */
  function ByAddress(addresses: seq<Address>, amounts: seq<uint64>): map<Address, uint64>
    requires |addresses| == |amounts|
  {
    if addresses == [] then map[]
    else
      var n := |addresses| - 1;
      ByAddress(addresses[..n], amounts[..n])[addresses[n] := amounts[n]]
  }

  /** What overwriting loses. */
  function Lost(addresses: seq<Address>, amounts: seq<uint64>): nat
    requires |addresses| == |amounts|
  {
    if addresses == [] then 0
    else
      var n := |addresses| - 1;
      var before := ByAddress(addresses[..n], amounts[..n]);
      ByAddressHolds(addresses[..n], amounts[..n]);
      Lost(addresses[..n], amounts[..n]) + (if addresses[n] in before then before[addresses[n]] else 0)
  }

  /** The last node that uses the address. */
  function LastUse(addresses: seq<Address>, a: Address): (i: nat)
    requires a in addresses
    ensures i < |addresses| && addresses[i] == a && forall j :: i < j < |addresses| ==> addresses[j] != a
  {
    var n := |addresses| - 1;
    if addresses[n] == a then n else LastUse(addresses[..n], a)
  }

  /** Under each address stands the amount of the last node that uses it. */
  lemma {:induction false} ByAddressHolds(addresses: seq<Address>, amounts: seq<uint64>)
    requires |addresses| == |amounts|
    ensures forall a :: a in ByAddress(addresses, amounts) <==> a in addresses
    ensures forall a :: a in addresses ==> ByAddress(addresses, amounts)[a] == amounts[LastUse(addresses, a)]
  {
    if addresses != [] {
      var n := |addresses| - 1;
      ByAddressHolds(addresses[..n], amounts[..n]);
      assert addresses == addresses[..n] + [addresses[n]];
    }
  }

  /** The map holds everything but what was overwritten. */
  lemma {:induction false} MapHoldsRest(addresses: seq<Address>, amounts: seq<uint64>)
    requires |addresses| == |amounts|
    ensures MapSum(ByAddress(addresses, amounts)) + Lost(addresses, amounts) == Total(amounts)
  {
    if addresses != [] {
      var n := |addresses| - 1;
      MapHoldsRest(addresses[..n], amounts[..n]);
      SumUpdate(ByAddress(addresses[..n], amounts[..n]), addresses[n], amounts[n]);
    }
  }

  /** No positive amount has its address used again. */
  ghost predicate NoPositiveReused(addresses: seq<Address>, amounts: seq<uint64>)
    requires |addresses| == |amounts|
  {
    forall i, j :: 0 <= i < j < |addresses| && addresses[i] == addresses[j] ==> amounts[i] == 0
  }

  lemma ReusedPrefix(addresses: seq<Address>, amounts: seq<uint64>)
    requires |addresses| == |amounts| > 0
    ensures
      var n := |addresses| - 1;
      NoPositiveReused(addresses, amounts) <==>
        NoPositiveReused(addresses[..n], amounts[..n])
        && forall i :: 0 <= i < n && addresses[i] == addresses[n] ==> amounts[i] == 0
  {
    var n := |addresses| - 1;
    if NoPositiveReused(addresses[..n], amounts[..n])
      && (forall i :: 0 <= i < n && addresses[i] == addresses[n] ==> amounts[i] == 0) {
      forall i, j | 0 <= i < j < |addresses| && addresses[i] == addresses[j] ensures amounts[i] == 0 {
        if j < n {
          assert addresses[..n][i] == addresses[..n][j] && amounts[..n][i] == amounts[i];
        }
      }
    }
  }

  /** Nothing is lost exactly when no positive amount has its address used again. */
  lemma {:induction false} LostNothingIff(addresses: seq<Address>, amounts: seq<uint64>)
    requires |addresses| == |amounts|
    ensures Lost(addresses, amounts) == 0 <==> NoPositiveReused(addresses, amounts)
  {
    if addresses != [] {
      var n := |addresses| - 1;
      var as', ms, a := addresses[..n], amounts[..n], addresses[n];
      LostNothingIff(as', ms);
      ReusedPrefix(addresses, amounts);
      ByAddressHolds(as', ms);
      if a in as' {
        var k := LastUse(as', a);
        if NoPositiveReused(as', ms) {
          forall i | 0 <= i < n && addresses[i] == a ensures amounts[i] == 0 || i == k {
            assert i < k ==> as'[i] == as'[k] && ms[i] == 0;
          }
        }
      }
    }
  }

  lemma {:induction false} EachBelowTotal(xs: seq<nat>, i: nat)
    requires i < |xs|
    ensures xs[i] <= Total(xs)
  {
    if i < |xs| - 1 {
      EachBelowTotal(xs[..|xs| - 1], i);
    }
  }

  lemma EntryFits(addresses: seq<Address>, amounts: seq<uint64>, a: Address)
    requires |addresses| == |amounts| && a in addresses
    ensures a in ByAddress(addresses, amounts) && ByAddress(addresses, amounts)[a] <= Total(amounts)
  {
    ByAddressHolds(addresses, amounts);
    EachBelowTotal(amounts, LastUse(addresses, a));
  }

  /** The map with the remainder on top of one entry. */
  function ToppedUp(addresses: seq<Address>, amounts: seq<uint64>, at: Address, extra: nat): map<Address, uint64>
    requires |addresses| == |amounts| && at in addresses && Total(amounts) + extra < TWO64
  {
    EntryFits(addresses, amounts, at);
    var given := ByAddress(addresses, amounts);
    if extra > 0 then given[at := given[at] + extra] else given
  }

  /** It holds everything but what was overwritten. */
  lemma ToppedUpHolds(addresses: seq<Address>, amounts: seq<uint64>, at: Address, extra: nat)
    requires |addresses| == |amounts| && at in addresses && Total(amounts) + extra < TWO64
    ensures MapSum(ToppedUp(addresses, amounts, at, extra)) == Total(amounts) + extra - Lost(addresses, amounts)
  {
    EntryFits(addresses, amounts, at);
    MapHoldsRest(addresses, amounts);
    var given := ByAddress(addresses, amounts);
    SumUpdate(given, at, given[at] + extra);
  }

  /** A positive amount whose address is used again is lost. */
  lemma ReusedIsLost(addresses: seq<Address>, amounts: seq<uint64>, i: nat, j: nat)
    requires |addresses| == |amounts| && i < j < |addresses| && addresses[i] == addresses[j] && amounts[i] > 0
    ensures Lost(addresses, amounts) > 0
  {
    LostNothingIff(addresses, amounts);
  }

  lemma LostPair(a: Address, m: uint64, n: uint64)
    ensures Lost([a, a], [m, n]) == m
  {
    assert [a, a][..1] == [a] && [m, n][..1] == [m] && [a][..0] == [] && [m][..0] == [];
    assert ByAddress([], []) == map[] && Lost([], []) == 0;
    assert ByAddress([a], [m]) == ByAddress([a][..0], [m][..0])[a := m] == map[a := m];
    assert Lost([a], [m]) == 0;
  }
}
