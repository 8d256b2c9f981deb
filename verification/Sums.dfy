/** Sums over finite maps, independent of any enumeration of the keys. */
module Sums {
  ghost function MapSum<K>(m: map<K, int>): (s: int)
    decreases |m|
  {
    if m == map[] then 0
    else
      var k :| k in m;
      m[k] + MapSum(m - {k})
  }

  /** Any key may be split off, whichever one the definition picks. */
  lemma {:induction false} SplitOff<K>(m: map<K, int>, k: K)
    requires k in m
    ensures MapSum(m) == m[k] + MapSum(m - {k})
    decreases |m|
  {
    var j :| j in m && MapSum(m) == m[j] + MapSum(m - {j});
    if j != k {
      SplitOff(m - {j}, k);
      SplitOff(m - {k}, j);
      assert m - {j} - {k} == m - {k} - {j};
    }
  }

  /** Writing one key changes the sum by the difference. */
  lemma {:induction false} SumUpdate<K>(m: map<K, int>, k: K, v: int)
    ensures MapSum(m[k := v]) == MapSum(m) - (if k in m then m[k] else 0) + v
  {
    var n := m[k := v];
    SplitOff(n, k);
    assert n - {k} == m - {k};
    if k in m {
      SplitOff(m, k);
    } else {
      assert m - {k} == m;
    }
  }

  /** A sum of non-negative values is at least each of them. */
  lemma {:induction false} SumBounds<K>(m: map<K, int>)
    requires forall k :: k in m ==> m[k] >= 0
    ensures MapSum(m) >= 0
    ensures forall k :: k in m ==> m[k] <= MapSum(m)
    decreases |m|
  {
    if m != map[] {
      forall k | k in m
        ensures MapSum(m) >= m[k] >= 0
      {
        SplitOff(m, k);
        SumBounds(m - {k});
      }
      var k :| k in m;
      assert MapSum(m) >= m[k];
    }
  }

  /** The values along a list of keys. */
  ghost function SumAlong<K>(m: map<K, int>, keys: seq<K>): int
    requires forall k :: k in keys ==> k in m
  {
    if keys == [] then 0 else SumAlong(m, keys[..|keys| - 1]) + m[keys[|keys| - 1]]
  }

  lemma {:induction false} SumAlongSame<K>(m: map<K, int>, n: map<K, int>, keys: seq<K>)
    requires forall k :: k in keys ==> k in m && k in n && m[k] == n[k]
    ensures SumAlong(m, keys) == SumAlong(n, keys)
  {
    if keys != [] {
      SumAlongSame(m, n, keys[..|keys| - 1]);
    }
  }

  /** Every enumeration of the keys yields the same sum. */
  lemma {:induction false} AnyOrder<K>(m: map<K, int>, keys: seq<K>)
    requires forall i, j :: 0 <= i < j < |keys| ==> keys[i] != keys[j]
    requires forall k :: k in m <==> k in keys
    ensures SumAlong(m, keys) == MapSum(m)
    decreases |keys|
  {
    if keys == [] {
      assert m == map[];
    } else {
      var n := |keys| - 1;
      var last := keys[n];
      assert keys == keys[..n] + [last];
      SplitOff(m, last);
      AnyOrder(m - {last}, keys[..n]);
      SumAlongSame(m, m - {last}, keys[..n]);
    }
  }

  lemma {:induction false} SumAtMost<K>(m: map<K, int>, bound: nat)
    requires forall k :: k in m ==> m[k] <= bound
    ensures MapSum(m) <= bound * |m|
    decreases |m|
  {
    if m != map[] {
      var k :| k in m;
      SplitOff(m, k);
      SumAtMost(m - {k}, bound);
      assert (m - {k}).Keys == m.Keys - {k};
      assert bound * |m| == bound * (|m| - 1) + bound;
    }
  }

  /** Entries that are 0 may be left out. */
  lemma {:induction false} DropZeros<K>(m: map<K, int>, keep: set<K>)
    requires forall k :: k in m && k !in keep ==> m[k] == 0
    ensures MapSum(m) == MapSum(map k | k in m && k in keep :: m[k])
    decreases |m|
  {
    if k :| k in m && k !in keep {
      SplitOff(m, k);
      DropZeros(m - {k}, keep);
      assert (map j | j in m - {k} && j in keep :: (m - {k})[j]) == map j | j in m && j in keep :: m[j];
    } else {
      assert m == map k | k in m && k in keep :: m[k];
    }
  }

  lemma {:induction false} SumsAdd<K>(a: map<K, int>, b: map<K, int>, c: map<K, int>)
    requires a.Keys == b.Keys == c.Keys && forall k :: k in a ==> c[k] == a[k] + b[k]
    ensures MapSum(c) == MapSum(a) + MapSum(b)
    decreases |a|
  {
    if a == map[] {
      assert b == map[] && c == map[];
    } else {
      var k :| k in a;
      SplitOff(a, k);
      SplitOff(b, k);
      SplitOff(c, k);
      SumsAdd(a - {k}, b - {k}, c - {k});
    }
  }

  /** Adding entry by entry, and something extra in one place. */
  lemma SumsAddExtra<K>(a: map<K, int>, b: map<K, int>, c: map<K, int>, at: K, extra: int)
    requires a.Keys == b.Keys == c.Keys && at in a
    requires forall k :: k in a ==> c[k] == a[k] + b[k] + (if k == at then extra else 0)
    ensures MapSum(c) == MapSum(a) + MapSum(b) + extra
  {
    SplitOff(a, at);
    SplitOff(b, at);
    SplitOff(c, at);
    SumsAdd(a - {at}, b - {at}, c - {at});
  }
}
