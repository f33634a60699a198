/** Triangular numbers and divisibility by powers of two. */
module Triangular {
  import opened Words

  function Tri(d: nat): nat {
    (d * d + d) / 2
  }

  lemma TriTwice(d: nat)
    ensures 2 * Tri(d) == d * (d + 1)
    ensures Tri(d + 1) == Tri(d) + d + 1
  {
    assert d * (d + 1) == d * d + d && (d + 1) * (d + 2) == d * d + 3 * d + 2;
    Consecutive(d);
  }

  lemma {:induction false} Consecutive(d: nat)
    ensures (d * d + d) % 2 == 0
  {
    var q := d / 2;
    if d % 2 == 0 {
      assert d * d + d == 2 * (q * (d + 1)) by { assert d == 2 * q; }
    } else {
      assert d * d + d == 2 * (d * (q + 1)) by { assert d + 1 == 2 * (q + 1); }
    }
  }

  ghost predicate Divides(m: nat, a: int) {
    exists q: nat :: a == m * q
  }

  /** An odd factor contributes nothing to divisibility by a power of two. */
  lemma {:induction false} OddFactor(m: nat, a: nat, b: nat)
    requires IsPow2(m) && a % 2 == 1 && Divides(m, a * b)
    ensures Divides(m, b)
  {
    if m == 1 {
      assert b == 1 * b;
    } else {
      var q := Halved(m, a, b);
      OddFactor(m / 2, a, b / 2);
      var q': nat :| b / 2 == (m / 2) * q';
      Doubled(m / 2, q');
    }
  }

  lemma Doubled(m: nat, q: nat)
    ensures 2 * (m * q) == (2 * m) * q
  {}

  lemma Halved(m: nat, a: nat, b: nat) returns (q: nat)
    requires m > 0 && m % 2 == 0 && a % 2 == 1 && Divides(m, a * b)
    ensures b % 2 == 0 && a * (b / 2) == (m / 2) * q && Divides(m / 2, a * (b / 2))
  {
    q :| a * b == m * q;
    OddTimes(a, b);
    EvenTimes(m, q);
    EvenTimes(b, a);
    Commutes(a, b);
    Commutes(a, b / 2);
  }

  lemma EvenTimes(m: nat, q: nat)
    requires m % 2 == 0
    ensures m * q == 2 * ((m / 2) * q)
  {
    Doubled(m / 2, q);
  }

  lemma OddTimes(a: nat, b: nat)
    requires a % 2 == 1
    ensures (a * b) % 2 == b % 2
  {
    assert a * b == (a - 1) * b + b;
    EvenTimes(a - 1, b);
  }

  lemma TooSmall(m: nat, a: nat)
    requires 0 < a < m
    ensures !Divides(m, a)
  {
    forall q: nat
      ensures a != m * q
    {
      if q > 0 { assert m * q == m + m * (q - 1); }
    }
  }

  /** Twice the difference of two triangular numbers. */
  lemma TriGap(i: nat, j: nat)
    requires i < j
    ensures 2 * (Tri(j) - Tri(i)) == (j - i) * (j + i + 1)
  {
    TriTwice(i);
    TriTwice(j);
    assert (j - i) * (j + i + 1) == j * (j + 1) - i * (i + 1);
  }

  lemma {:induction false} TriGrows(i: nat, j: nat)
    requires i < j
    ensures Tri(i) < Tri(j)
  {
    TriTwice(j - 1);
    if i < j - 1 { TriGrows(i, j - 1); }
  }

  lemma NegativeProduct(n: nat, q: int)
    requires n > 0
    ensures n * q >= 0 <==> q >= 0
  {}

  lemma SameRemainder(n: nat, x: nat, y: nat)
    requires n > 0 && x <= y && x % n == y % n
    ensures Divides(2 * n, 2 * (y - x))
  {
    var q: int := y / n - x / n;
    assert y - x == n * q by {
      assert n * q == n * (y / n) - n * (x / n);
    }
    NegativeProduct(n, q);
    assert 2 * (y - x) == (2 * n) * q;
  }

  /** A power of two does not divide a product of an odd and an even number that are both smaller. */
  lemma MixedProduct(m: nat, a: nat, b: nat)
    requires IsPow2(m) && 0 < a < m && 0 < b < m && a % 2 != b % 2
    ensures !Divides(m, a * b)
  {
    hide *;
    TooSmall(m, a);
    TooSmall(m, b);
    if Divides(m, a * b) {
      if a % 2 == 1 {
        OddFactor(m, a, b);
      } else {
        Commutes(a, b);
        OddFactor(m, b, a);
      }
    }
  }

  lemma Commutes(a: nat, b: nat)
    ensures a * b == b * a
  {}
}
