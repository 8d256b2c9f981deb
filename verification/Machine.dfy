/** Go's fixed-width integers, with the wrap-around of the unchecked operators written out. */
module Machine {
  const TWO64: int := 0x1_0000_0000_0000_0000
  const MAX_UINT64: int := TWO64 - 1
  const TWO63: int := 0x8000_0000_0000_0000

  type uint64 = x: int | 0 <= x < 0x1_0000_0000_0000_0000
  type uint8 = x: int | 0 <= x < 0x100
  type int64 = x: int | -0x8000_0000_0000_0000 <= x < 0x8000_0000_0000_0000

  datatype Option<+T> = None | Some(value: T)

  /** `a + b` on uint64. */
  function Add(a: uint64, b: uint64): (r: uint64)
    ensures a + b < TWO64 <==> r == a + b
  {
    if a + b < TWO64 then a + b else a + b - TWO64
  }

  /** What is left on uint64 of an exact sum. */
  function Wrap(exact: nat): (r: uint64)
    ensures exact < TWO64 <==> r == exact
    ensures exact >= TWO64 ==> r <= exact - TWO64
  {
    if exact < TWO64 then exact else Wrap(exact - TWO64)
  }

  lemma {:induction false} WrapIsModulo(exact: nat)
    ensures Wrap(exact) == exact % TWO64
  {
    if exact >= TWO64 {
      WrapIsModulo(exact - TWO64);
    }
  }

  /** Summing step by step on uint64 leaves the same as wrapping the exact sum. */
  lemma {:induction false} SumWraps(exact: nat, d: uint64)
    ensures Add(Wrap(exact), d) == Wrap(exact + d)
  {
    if exact >= TWO64 {
      SumWraps(exact - TWO64, d);
    }
  }

  /** Wrapping a part of a sum first changes nothing. */
  lemma {:induction false} WrapPart(a: nat, b: nat)
    ensures Wrap(Wrap(a) + b) == Wrap(a + b)
    decreases a
  {
    if a >= TWO64 {
      WrapPart(a - TWO64, b);
    }
  }

  lemma WrapCongruent(a: nat, b: nat, b': nat)
    requires Wrap(b) == Wrap(b')
    ensures Wrap(Wrap(a) + b) == Wrap(a + b')
  {
    WrapPart(a, b);
    WrapPart(b, a);
    WrapPart(b', a);
  }

  /** `a * b` on uint64. */
  function Mul(a: uint64, b: uint64): (r: uint64)
    ensures r <= a * b
    ensures a * b < TWO64 <==> r == a * b
  {
    MulNonNegative(a, b);
    Wrap(a * b)
  }

  lemma MulNonNegative(a: nat, b: nat)
    ensures a * b >= 0
  {
  }

  /** `a + b` on int64. */
  function AddInt64(a: int64, b: int64): (r: int64)
    ensures -TWO63 <= a + b < TWO63 <==> r == a + b
    ensures a + b >= TWO63 ==> r < a
  {
    if a + b >= TWO63 then a + b - TWO64 else if a + b < -TWO63 then a + b + TWO64 else a + b
  }
}
