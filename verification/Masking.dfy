/** Exclusive or of bytes, and masks of four bytes laid over longer strings of them. */
module Masking {
  import opened Machine

  /** `a ^ b` on the low k bits. */
  function XorBits(a: nat, b: nat, k: nat): nat
    decreases k
  {
    if k == 0 then 0 else (a % 2 + b % 2) % 2 + 2 * XorBits(a / 2, b / 2, k - 1)
  }

  function PowerOfTwo(k: nat): nat {
    if k == 0 then 1 else 2 * PowerOfTwo(k - 1)
  }

  lemma {:induction false} XorFits(a: nat, b: nat, k: nat)
    ensures XorBits(a, b, k) < PowerOfTwo(k)
    decreases k
  {
    if k > 0 {
      XorFits(a / 2, b / 2, k - 1);
    }
  }

  lemma {:induction false} XorTwice(a: nat, b: nat, k: nat)
    requires a < PowerOfTwo(k)
    ensures XorBits(XorBits(a, b, k), b, k) == a
    decreases k
  {
    if k > 0 {
      XorTwice(a / 2, b / 2, k - 1);
      XorHalves(a, b, k);
      XorBit(a, b);
    }
  }

  lemma XorBit(a: nat, b: nat)
    ensures ((a % 2 + b % 2) % 2 + b % 2) % 2 + 2 * (a / 2) == a
  {
  }

  lemma XorHalves(a: nat, b: nat, k: nat)
    requires k > 0
    ensures XorBits(a, b, k) / 2 == XorBits(a / 2, b / 2, k - 1)
    ensures XorBits(a, b, k) % 2 == (a % 2 + b % 2) % 2
  {
  }

  lemma EightBits()
    ensures PowerOfTwo(8) == 256
  {
    assert PowerOfTwo(4) == 16;
  }

  function Xor(a: uint8, b: uint8): uint8 {
    EightBits();
    XorFits(a, b, 8);
    XorBits(a, b, 8)
  }

  /** The i-th bit, counted from the lowest. */
  function Bit(a: nat, i: nat): nat {
    if i == 0 then a % 2 else Bit(a / 2, i - 1)
  }

  lemma {:induction false} XorBitAt(a: nat, b: nat, k: nat, i: nat)
    requires i < k
    ensures Bit(XorBits(a, b, k), i) == if Bit(a, i) == Bit(b, i) then 0 else 1
    decreases k
  {
    XorHalves(a, b, k);
    if i > 0 {
      XorBitAt(a / 2, b / 2, k - 1, i - 1);
    }
  }

  /** Each bit of the result is set exactly where the bits differ. */
  lemma XorIsBitwise(a: uint8, b: uint8, i: nat)
    requires i < 8
    ensures Bit(Xor(a, b), i) == if Bit(a, i) == Bit(b, i) then 0 else 1
  {
    XorBitAt(a, b, 8, i);
  }

  lemma {:induction false} XorNothing(a: nat, k: nat)
    requires a < PowerOfTwo(k)
    ensures XorBits(a, 0, k) == a
    decreases k
  {
    if k > 0 {
      XorNothing(a / 2, k - 1);
    }
  }

  lemma XorZero(a: uint8)
    ensures Xor(a, 0) == a
  {
    EightBits();
    XorNothing(a, 8);
  }

  lemma XorInverse(a: uint8, b: uint8)
    ensures Xor(Xor(a, b), b) == a
  {
    EightBits();
    XorTwice(a, b, 8);
  }

  function Masked(payload: seq<uint8>, mask: seq<uint8>): (r: seq<uint8>)
    requires |mask| == 4
    ensures |r| == |payload| && forall i :: 0 <= i < |payload| ==> r[i] == Xor(payload[i], mask[i % 4])
  {
    seq(|payload|, i requires 0 <= i < |payload| => Xor(payload[i], mask[i % 4]))
  }

  lemma MaskTwice(payload: seq<uint8>, mask: seq<uint8>)
    requires |mask| == 4
    ensures Masked(Masked(payload, mask), mask) == payload
  {
    forall i | 0 <= i < |payload| ensures Masked(Masked(payload, mask), mask)[i] == payload[i] {
      XorInverse(payload[i], mask[i % 4]);
    }
  }

  /** The masking loop of `wsReadFrame`, in place. */
  method Unmask(payload: array<uint8>, mask: seq<uint8>)
    requires |mask| == 4
    modifies payload
    ensures payload[..] == Masked(old(payload[..]), mask)
  {
    ghost var raw := payload[..];
    for i := 0 to payload.Length
      invariant forall j :: 0 <= j < i ==> payload[j] == Xor(raw[j], mask[j % 4])
      invariant forall j :: i <= j < payload.Length ==> payload[j] == raw[j]
    {
      payload[i] := Xor(payload[i], mask[i % 4]);
    }
  }
}
