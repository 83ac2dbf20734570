/** Small facts about `/` and `%` on naturals that the ring proofs lean on. */
module Arith {

  lemma ModBelow(x: nat, m: nat)
    requires x < m
    ensures x % m == x
  {
  }

  lemma ModOnce(x: nat, m: nat)
    requires 0 < m <= x < 2 * m
    ensures x % m == x - m
  {
    assert x == 1 * m + (x - m);
  }

  lemma ModTwice(x: nat, m: nat)
    requires 0 < m && 2 * m <= x < 3 * m
    ensures x % m == x - 2 * m
  {
    assert x == 2 * m + (x - 2 * m);
  }

  /** x % m for x below 3m, spelled out. */
  lemma ModSmall(x: nat, m: nat)
    requires 0 < m && x < 3 * m
    ensures x % m == if x < m then x else if x < 2 * m then x - m else x - 2 * m
  {
    if x < m {
      ModBelow(x, m);
    } else if x < 2 * m {
      ModOnce(x, m);
    } else {
      ModTwice(x, m);
    }
  }

  /** `capacity / p * p` is a multiple of p, no larger than capacity,
      and at least p when p fits. */
  lemma RoundDown(c: nat, p: nat)
    requires 0 < p
    ensures c / p * p <= c
    ensures (c / p * p) % p == 0
    ensures p <= c ==> p <= c / p * p
    ensures c - c / p * p < p
  {
    var q := c / p;
    assert c == q * p + c % p;
    MultipleMod(q, p);
    if p <= c {
      assert 1 <= q;
      assert p <= q * p;
    }
  }

  lemma MultipleMod(q: nat, p: nat)
    requires 0 < p
    ensures (q * p) % p == 0
    ensures (q * p) / p == q
  {
    var x := q * p;
    var d, r := x / p, x % p;
    assert x == d * p + r;
    assert (q - d) * p == r;
    ScaleBounds(q - d, p);
  }

  lemma ScaleBounds(k: int, p: nat)
    ensures k >= 1 ==> k * p >= p
    ensures k <= -1 ==> k * p <= 0 - p
  {
  }

  lemma {:induction false} SumOfMultiples(a: nat, b: nat, p: nat)
    requires 0 < p && a % p == 0 && b % p == 0
    ensures (a + b) % p == 0
    ensures a >= b ==> (a - b) % p == 0
  {
    var i, j := a / p, b / p;
    assert a == i * p;
    assert b == j * p;
    assert a + b == (i + j) * p;
    MultipleMod(i + j, p);
    if a >= b {
      assert i >= j;
      assert a - b == (i - j) * p;
      MultipleMod(i - j, p);
    }
  }

  /** Two distinct multiples of p differ by at least p. */
  lemma MultiplesApart(a: nat, b: nat, p: nat)
    requires 0 < p && a % p == 0 && b % p == 0 && a < b
    ensures a + p <= b
  {
    var i, j := a / p, b / p;
    assert a == i * p;
    assert b == j * p;
    assert i < j;
    assert (i + 1) * p <= j * p;
  }

  /** Two distinct numbers with the same remainder mod p differ by at
      least p. */
  lemma CongruentApart(a: nat, b: nat, p: nat)
    requires 0 < p && a % p == b % p && a < b
    ensures a + p <= b
  {
    var i, j := a / p, b / p;
    assert a == i * p + a % p;
    assert b == j * p + b % p;
    assert i < j;
    assert (i + 1) * p <= j * p;
  }

  /** 2^64: `uint64_t` and `size_t` arithmetic wraps modulo this. */
  const U64: nat := 0x1_0000_0000_0000_0000

  /** `a + b` on 64-bit unsigned integers. */
  function Add64(a: nat, b: nat): (r: nat)
    ensures r < U64
    ensures a + b < U64 ==> r == a + b
  {
    (a + b) % U64
  }

  /** `a - b` on 64-bit unsigned integers. */
  function Sub64(a: nat, b: nat): (r: nat)
    ensures r < U64
    ensures b <= a < U64 ==> r == a - b
    ensures a < b && b - a <= U64 ==> r == U64 - (b - a)
  {
    (a - b) % U64
  }
}
