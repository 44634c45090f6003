/** Masks on natural numbers. */
module Bits {

  predicate PowerOfTwo(n: nat) { n == 1 || (n > 0 && n % 2 == 0 && PowerOfTwo(n / 2)) }

  /** Bitwise conjunction. */
  function And(x: nat, y: nat): nat {
    if x == 0 || y == 0 then 0 else 2 * And(x / 2, y / 2) + (x % 2) * (y % 2)
  }

  function Mod(x: nat, n: nat): nat
    requires n > 0
  {
    x % n
  }

  /** Masking and taking the remainder are the same for a power of two. */
  lemma {:induction false} MaskIsModulo(x: nat, n: nat)
    requires PowerOfTwo(n)
    ensures And(x, n - 1) == Mod(x, n)
  {
    hide And, Mod;
    if x == 0 || n == 1 {
      AndNothing(x, n - 1);
      ModNothing(x, n);
    } else {
      var m := n / 2;
      AndOdd(x, m);
      MaskIsModulo(x / 2, m);
      Halves(x, m);
    }
  }

  lemma ModNothing(x: nat, n: nat)
    requires n > 0 && (x == 0 || n == 1)
    ensures Mod(x, n) == 0
  {}

  lemma AndNothing(x: nat, y: nat)
    ensures x == 0 || y == 0 ==> And(x, y) == 0
  {}

  lemma AndOdd(x: nat, m: nat)
    requires x > 0 && m > 0
    ensures And(x, 2 * m - 1) == 2 * And(x / 2, m - 1) + x % 2
  {
    assert (2 * m - 1) / 2 == m - 1 && (2 * m - 1) % 2 == 1;
  }

  lemma Halves(x: nat, m: nat)
    requires m > 0
    ensures Mod(x, 2 * m) == 2 * Mod(x / 2, m) + x % 2
  {
    var q, r := x / 2 / m, x / 2 % m;
    assert x == 2 * (m * q + r) + x % 2;
    assert x == (2 * m) * q + (2 * r + x % 2);
    Remainder(x, 2 * m, q, 2 * r + x % 2);
  }

  lemma Remainder(x: nat, d: nat, q: nat, r: nat)
    requires r < d && x == d * q + r
    ensures x % d == r
  {
    var k := q - x / d;
    assert x % d == d * k + r;
    assert k > 0 ==> d * k >= d;
    assert k < 0 ==> d * k <= -1 * d;
  }

  lemma {:induction false} AndAtMost(x: nat, y: nat)
    ensures And(x, y) <= y
  {
    if x != 0 && y != 0 {
      AndAtMost(x / 2, y / 2);
    }
  }
}
