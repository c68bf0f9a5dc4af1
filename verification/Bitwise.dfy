// Bitwise operators on bytes, bit by bit on integers.
module Bitwise {
  import opened Common

  function Bits(n: nat): nat {
    if n == 0 then 1 else 2 * Bits(n - 1)
  }

  // Exclusive or, bit by bit.
  function XorBits(a: nat, b: nat, n: nat): (r: nat)
    ensures r < Bits(n)
  {
    if n == 0 then 0 else (if a % 2 == b % 2 then 0 else 1) + 2 * XorBits(a / 2, b / 2, n - 1)
  }

  function Xor(a: u8, b: u8): u8 {
    assert Bits(8) == 0x100;
    XorBits(a, b, 8)
  }

  // Bit k of a number.
  function BitOf(a: nat, k: nat): nat {
    if k == 0 then a % 2 else BitOf(a / 2, k - 1)
  }

  // A bit of the exclusive or is set exactly if the two bits differ.
  lemma {:induction false} XorBitOf(a: nat, b: nat, n: nat, k: nat)
    requires k < n
    ensures BitOf(XorBits(a, b, n), k) == if BitOf(a, k) != BitOf(b, k) then 1 else 0
  {
    var rest := XorBits(a / 2, b / 2, n - 1);
    assert XorBits(a, b, n) / 2 == rest;
    if k > 0 {
      XorBitOf(a / 2, b / 2, n - 1, k - 1);
    }
  }

  lemma {:induction false} XorBitsInjective(a: nat, b: nat, mask: nat, n: nat)
    requires a < Bits(n) && b < Bits(n) && XorBits(a, mask, n) == XorBits(b, mask, n)
    ensures a == b
  {
    if n > 0 {
      var x, y := XorBits(a / 2, mask / 2, n - 1), XorBits(b / 2, mask / 2, n - 1);
      assert (if a % 2 == mask % 2 then 0 else 1) + 2 * x == (if b % 2 == mask % 2 then 0 else 1) + 2 * y;
      assert x == y && a % 2 == b % 2;
      XorBitsInjective(a / 2, b / 2, mask / 2, n - 1);
    }
  }

  lemma {:induction false} XorBitsCommutes(a: nat, b: nat, n: nat)
    ensures XorBits(a, b, n) == XorBits(b, a, n)
  {
    if n > 0 {
      XorBitsCommutes(a / 2, b / 2, n - 1);
    }
  }

  lemma XorInjective(a: u8, b: u8, mask: u8)
    ensures Xor(a, mask) == Xor(b, mask) <==> a == b
  {
    assert Bits(8) == 0x100;
    if Xor(a, mask) == Xor(b, mask) {
      XorBitsInjective(a, b, mask, 8);
    }
  }

  lemma XorCommutes(a: u8, b: u8)
    ensures Xor(a, b) == Xor(b, a)
  {
    hide XorBits;
    XorBitsCommutes(a, b, 8);
  }

  // Inclusive or, bit by bit.
  function OrBits(a: nat, b: nat, n: nat): (r: nat)
    ensures r < Bits(n)
  {
    if n == 0 then 0 else (if a % 2 == 1 || b % 2 == 1 then 1 else 0) + 2 * OrBits(a / 2, b / 2, n - 1)
  }

  function Or(a: u8, b: u8): u8 {
    assert Bits(8) == 0x100;
    OrBits(a, b, 8)
  }

  // A bit of the inclusive or is set exactly if one of the two is.
  lemma {:induction false} OrBitOf(a: nat, b: nat, n: nat, k: nat)
    requires k < n
    ensures BitOf(OrBits(a, b, n), k) == if BitOf(a, k) == 1 || BitOf(b, k) == 1 then 1 else 0
  {
    var rest := OrBits(a / 2, b / 2, n - 1);
    assert OrBits(a, b, n) / 2 == rest;
    if k > 0 {
      OrBitOf(a / 2, b / 2, n - 1, k - 1);
    }
  }

  lemma {:induction false} OrTop(x: nat, n: nat)
    requires x < Bits(n + 1)
    ensures OrBits(Bits(n), x, n + 1) == if x < Bits(n) then Bits(n) + x else x
  {
    if n > 0 {
      OrTop(x / 2, n - 1);
    } else {
      assert OrBits(1, x, 1) == 1;
    }
  }

  lemma {:induction false} OrZero(a: nat, n: nat)
    requires a < Bits(n)
    ensures OrBits(a, 0, n) == a
  {
    if n > 0 {
      OrZero(a / 2, n - 1);
    }
  }
}
