/** Shared vocabulary: optional values, bytes, and the bit operations of C and
    PHP on non-negative integers. */
module Bits {

  datatype Option<+T> = None | Some(value: T)

  type Byte = x: int | 0 <= x < 256
  type Bytes = seq<Byte>

  function Pow2(n: nat): (r: nat)
    ensures r > 0
  {
    if n == 0 then 1 else 2 * Pow2(n - 1)
  }

  /** `x >> k`. */
  function Shr(x: nat, k: nat): nat {
    if k == 0 then x else Shr(x / 2, k - 1)
  }

  /** `x << k`. */
  function Shl(x: nat, k: nat): nat {
    if k == 0 then x else 2 * Shl(x, k - 1)
  }

  /** `x & y`. */
  function And(x: nat, y: nat): nat {
    if x == 0 || y == 0 then 0
    else 2 * And(x / 2, y / 2) + if x % 2 == 1 && y % 2 == 1 then 1 else 0
  }

  /** `x | y`. */
  function Or(x: nat, y: nat): nat {
    if x == 0 then y
    else 2 * Or(x / 2, y / 2) + if x % 2 == 1 || y % 2 == 1 then 1 else 0
  }

  /** `x ^ y`. */
  function Xor(x: nat, y: nat): nat {
    if x == 0 then y
    else 2 * Xor(x / 2, y / 2) + if x % 2 != y % 2 then 1 else 0
  }

  lemma {:induction false} XorBound(x: nat, y: nat, n: nat)
    requires x < Pow2(n) && y < Pow2(n)
    ensures Xor(x, y) < Pow2(n)
    decreases n
  {
    if x != 0 {
      XorBound(x / 2, y / 2, n - 1);
    }
  }

  lemma {:induction false} XorBack(x: nat, k: nat)
    ensures Xor(Xor(x, k), k) == x
    decreases x + k
  {
    if x == 0 {
      XorSelf(k);
    } else {
      XorBack(x / 2, k / 2);
      var y := Xor(x, k);
      assert y / 2 == Xor(x / 2, k / 2);
      assert y == 0 ==> Xor(x / 2, k / 2) == 0;
    }
  }

  lemma {:induction false} XorSelf(k: nat)
    ensures Xor(k, k) == 0
  {
    if k != 0 {
      XorSelf(k / 2);
    }
  }

  lemma {:induction false} OrDisjoint(h: nat, l: nat, k: nat)
    requires l < Pow2(k)
    ensures Or(Shl(h, k), l) == Shl(h, k) + l
    decreases k
  {
    if k == 0 {
      OrZero(h);
    } else if Shl(h, k) != 0 {
      OrDisjoint(h, l / 2, k - 1);
    }
  }

  lemma {:induction false} OrZero(h: nat)
    ensures Or(h, 0) == h
  {
    if h != 0 {
      OrZero(h / 2);
    }
  }

  lemma Powers()
    ensures Pow2(1) == 2 && Pow2(2) == 4 && Pow2(3) == 8 && Pow2(4) == 16
    ensures Pow2(5) == 32 && Pow2(6) == 64 && Pow2(7) == 128 && Pow2(8) == 256
  {
    assert Pow2(4) == 16;
    assert Pow2(8) == 2 * Pow2(7);
  }

  lemma ShlFour(h: nat)
    ensures Shl(h, 4) == h * 16
  {
    assert Shl(h, 1) == 2 * h;
    assert Shl(h, 2) == 4 * h;
    assert Shl(h, 3) == 8 * h;
  }

  lemma OrNibbles(h: nat, l: nat)
    requires l < 16
    ensures Or(h * 16, l) == h * 16 + l
  {
    Powers();
    ShlFour(h);
    OrDisjoint(h, l, 4);
  }

  lemma {:induction false} XorBit(x: nat, y: nat, b: nat)
    ensures Shr(Xor(x, y), b) % 2 == 1 <==> Shr(x, b) % 2 != Shr(y, b) % 2
    decreases b
  {
    if b > 0 {
      XorBit(x / 2, y / 2, b - 1);
      assert Xor(x, y) / 2 == Xor(x / 2, y / 2);
    }
  }

  function XorByte(x: Byte, y: Byte): Byte {
    Powers();
    XorBound(x, y, 8);
    Xor(x, y)
  }

  /** The low eight bits of an int, as a cast to uint8_t keeps them. */
  function LowByte(n: int): Byte {
    if 0 <= n < 256 then n else n % 256
  }

  lemma DivUnique(x: nat, d: nat, q: nat, r: nat)
    requires d > 0 && x == q * d + r && r < d
    ensures x / d == q
  {
    var q', r' := x / d, x % d;
    assert x == q' * d + r';
    assert (q + 1) * d == q * d + d && (q' + 1) * d == q' * d + d;
    if q < q' {
      MulMonotone(q + 1, q', d);
    } else if q' < q {
      MulMonotone(q' + 1, q, d);
    }
  }

  lemma MulMonotone(a: nat, b: nat, d: nat)
    requires a <= b
    ensures a * d <= b * d
  {
  }

  lemma DivTwice(x: nat, p: nat)
    requires p > 0
    ensures x / 2 / p == x / (2 * p)
  {
    var q, r := x / 2 / p, x / 2 % p;
    assert x / 2 == q * p + r;
    assert x == q * (2 * p) + (2 * r + x % 2);
    DivUnique(x, 2 * p, q, 2 * r + x % 2);
  }

  lemma {:induction false} ShrDivides(x: nat, k: nat)
    ensures Shr(x, k) == x / Pow2(k)
    decreases k
  {
    if k > 0 {
      ShrDivides(x / 2, k - 1);
      DivTwice(x, Pow2(k - 1));
    }
  }

  /** Bit b of a number. */
  function Bit(x: nat, b: nat): nat {
    x / Pow2(b) % 2
  }

  /** The exclusive or of two bytes has exactly the bits in which they differ. */
  lemma XorByteBits(x: Byte, y: Byte, b: nat)
    ensures Bit(XorByte(x, y), b) == 1 <==> Bit(x, b) != Bit(y, b)
  {
    XorBit(x, y, b);
    ShrDivides(x, b);
    ShrDivides(y, b);
    ShrDivides(XorByte(x, y), b);
  }
}
