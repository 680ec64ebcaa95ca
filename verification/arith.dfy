/** Facts about Euclidean division that the solver does not find alone. */
module Arith {

  /** The remainder of a division is the unique value in range. */
  lemma ModUnique(x: int, d: int, q: int, r: int)
    requires d >= 1 && x == d * q + r && 0 <= r < d
    ensures x % d == r
    ensures x / d == q
  {
    var q' := x / d;
    var r' := x % d;
    var k := q' - q;
    assert d * q' == d * q + d * k;
    assert d * k == r - r';
    if k >= 1 {
      MulAtLeast(d, k);
    } else if k <= -1 {
      MulAtLeast(d, -k);
    }
  }

  lemma MulAtLeast(d: int, k: int)
    requires d >= 1 && k >= 1
    ensures d * k >= d
  {
    assert d * k == d * (k - 1) + d;
  }

  /** Taking one divisor off the dividend takes one off the quotient. */
  lemma DivSubOne(x: int, d: int)
    requires d >= 1 && x >= d
    ensures (x - d) / d + 1 == x / d
    ensures (x - d) % d == x % d
  {
    var q := (x - d) / d;
    var r := (x - d) % d;
    assert x - d == d * q + r;
    assert x == d * (q + 1) + r;
    ModUnique(x, d, q + 1, r);
  }

  lemma MulSucc(n: int, k: int)
    ensures n * (k + 1) == n * k + n
  {
  }

  lemma SuccMul(n: int, k: int)
    ensures (n + 1) * k == n * k + k
  {
  }

  lemma MulMono(n: nat, a: int, b: int)
    requires a <= b
    ensures n * a <= n * b
  {
    assert n * b == n * a + n * (b - a);
  }

  /** A dividend of at least `d * q` has a quotient of at least `q`. */
  lemma DivAtLeast(a: int, d: int, q: int)
    requires d >= 1 && a >= d * q
    ensures a / d >= q
  {
    var r := a % d;
    var p := a / d;
    assert a == d * p + r;
    if p < q {
      MulMono(d, p + 1, q);
      MulSucc(d, p);
    }
  }

  /** When `k + 1` steps of `d` fit in `n`, index `k` is below `n / d`. */
  lemma StepsFit(n: int, d: int, k: nat)
    requires d >= 1 && (k + 1) * d <= n
    ensures 1 <= (k + 1) * d && k < n / d
  {
    MulAtLeast(d, k + 1);
    DivAtLeast(n, d, k + 1);
  }

  /** Key-count arithmetic: `c` kept samples give `8c` bytes, cut into
      `(8c + 15) / 16` pieces of 16. */
  lemma KeyCount(c: nat, rounds: nat)
    requires 2 * rounds <= c
    ensures (8 * c + 15) / 16 >= rounds
    ensures (8 * c + 15) / 16 == rounds <==> c == 2 * rounds
    ensures (8 * c) % 16 == 0 <==> c % 2 == 0
    ensures c % 2 == 1 ==> (8 * c) % 16 == 8
  {
    ModUnique(8 * c, 16, c / 2, 8 * (c % 2));
    if c == 2 * rounds {
      ModUnique(8 * c + 15, 16, rounds, 15);
    } else {
      DivAtLeast(8 * c + 15, 16, rounds + 1);
    }
  }
}
