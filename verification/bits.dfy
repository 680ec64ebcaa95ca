/** Python's bit operators on non-negative integers: `<<`, `>>`, `|`, `&`.
    Shifts are multiplication and floor division by a power of two; `|` and
    `&` are defined bit by bit, least significant bit first. */
module Bits {

  import Arith

  function Pow2(k: nat): (r: nat)
    ensures r >= 1
  {
    if k == 0 then 1 else 2 * Pow2(k - 1)
  }

  /** `x << k` */
  function Shl(x: nat, k: nat): nat {
    x * Pow2(k)
  }

  /** `x >> k`, one halving per bit shifted out. */
  function Shr(x: nat, k: nat): nat {
    if k == 0 then x else Shr(x / 2, k - 1)
  }

  /** Shifting right by `k` is floor division by `2^k`. */
  lemma {:induction false} ShrIsDiv(x: nat, k: nat)
    ensures Shr(x, k) == x / Pow2(k)
  {
    if k > 0 {
      ShrIsDiv(x / 2, k - 1);
      HalfMod(x, Pow2(k - 1));
    }
  }

  /** `a | b` */
  function Or(a: nat, b: nat): nat
    decreases a
  {
    if a == 0 then b
    else if b == 0 then a
    else 2 * Or(a / 2, b / 2) + (if a % 2 == 1 || b % 2 == 1 then 1 else 0)
  }

  /** `a & b` */
  function And(a: nat, b: nat): nat
    decreases a
  {
    if a == 0 || b == 0 then 0
    else 2 * And(a / 2, b / 2) + (if a % 2 == 1 && b % 2 == 1 then 1 else 0)
  }

  /** `a ^ b` */
  function Xor(a: nat, b: nat): nat
    decreases a + b
  {
    if a == 0 && b == 0 then 0
    else 2 * Xor(a / 2, b / 2) + (a % 2 + b % 2) % 2
  }

  /** XOR of two `k`-bit values is a `k`-bit value. */
  lemma {:induction false} XorBound(a: nat, b: nat, k: nat)
    requires a < Pow2(k) && b < Pow2(k)
    ensures Xor(a, b) < Pow2(k)
    decreases k
  {
    if k > 0 && (a != 0 || b != 0) {
      XorBound(a / 2, b / 2, k - 1);
    }
  }

  lemma {:induction false} XorZero(a: nat)
    ensures Xor(a, 0) == a
    decreases a
  {
    if a != 0 {
      XorZero(a / 2);
    }
  }

  lemma {:induction false} ZeroXor(b: nat)
    ensures Xor(0, b) == b
    decreases b
  {
    if b != 0 {
      ZeroXor(b / 2);
    }
  }

  /** XOR-ing the same value twice gives the original back. */
  lemma {:induction false} XorCancel(a: nat, b: nat)
    ensures Xor(Xor(a, b), b) == a
    decreases a + b
  {
    if b == 0 {
      XorZero(a);
      XorZero(Xor(a, 0));
    } else {
      var y := Xor(a / 2, b / 2);
      var e := (a % 2 + b % 2) % 2;
      var x := Xor(a, b);
      assert x == 2 * y + e;
      Arith.ModUnique(x, 2, y, e);
      XorCancel(a / 2, b / 2);
      ParityCancel(a % 2, b % 2);
      assert Xor(x, b) == 2 * Xor(x / 2, b / 2) + (x % 2 + b % 2) % 2;
    }
  }

  lemma ParityCancel(p: nat, q: nat)
    requires p < 2 && q < 2
    ensures ((p + q) % 2 + q) % 2 == p
  {
  }

  /** OR-ing a value shifted left by `k` with a value below `2^k` touches
      disjoint bits, so it is plain addition. */
  lemma {:induction false} OrOfShifted(a: nat, b: nat, k: nat)
    requires b < Pow2(k)
    ensures Or(Shl(a, k), b) == Shl(a, k) + b
    decreases k
  {
    if k == 0 {
      assert b == 0;
    } else if a == 0 || b == 0 {
    } else {
      var half := a * Pow2(k - 1);
      assert Shl(a, k) == 2 * half;
      assert (2 * half) / 2 == half && (2 * half) % 2 == 0;
      OrOfShifted(a, b / 2, k - 1);
      assert Or(Shl(a, k), b) == 2 * Or(half, b / 2) + (if b % 2 == 1 then 1 else 0);
    }
  }

  /** AND with the mask `2^k - 1` keeps the low `k` bits. */
  lemma {:induction false} AndLowMask(s: nat, k: nat)
    ensures And(s, Pow2(k) - 1) == s % Pow2(k)
    decreases k
  {
    if k == 0 {
    } else if s == 0 {
    } else {
      var m := Pow2(k - 1);
      assert Pow2(k) - 1 == 2 * (m - 1) + 1;
      assert (Pow2(k) - 1) / 2 == m - 1 && (Pow2(k) - 1) % 2 == 1;
      AndLowMask(s / 2, k - 1);
      assert And(s, Pow2(k) - 1) == 2 * ((s / 2) % m) + s % 2;
      HalfMod(s, m);
    }
  }

  lemma HalfMod(s: nat, m: nat)
    requires m >= 1
    ensures 2 * ((s / 2) % m) + s % 2 == s % (2 * m)
    ensures (s / 2) / m == s / (2 * m)
  {
    var q := (s / 2) / m;
    var r := (s / 2) % m;
    assert s / 2 == q * m + r;
    assert s == (2 * m) * q + (2 * r + s % 2);
    Arith.ModUnique(s, 2 * m, q, 2 * r + s % 2);
  }
}
