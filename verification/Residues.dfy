/** Remainders of natural numbers. */
module Residues {
  /** The distance from position `start` forward to the next position of residue i. */
  function OffsetTo(start: nat, i: nat, n: nat): (o: nat)
    requires i < n
    ensures o < n && (start + o) % n == i && (o == 0 ==> start % n == i)
  {
    var r := start % n;
    assert start == n * (start / n) + r;
    if r <= i then
      ResidueOf(start + (i - r), start / n, i, n); i - r
    else
      assert n * (start / n + 1) == n * (start / n) + n;
      ResidueOf(start + (i + n - r), start / n + 1, i, n); i + n - r
  }

  lemma MultipleIsFar(d: int, n: int)
    requires n >= 0
    ensures d >= 1 ==> d * n >= n
    ensures d <= -1 ==> d * n <= -n
  {
  }

  lemma ResidueOf(x: nat, q: nat, r: nat, n: nat)
    requires r < n && x == n * q + r
    ensures x % n == r
  {
    var q' := x / n;
    assert x == n * q' + x % n;
    MultipleIsFar(q' - q, n);
    assert (q' - q) * n == r - x % n;
  }

  lemma SmallResidue(x: nat, n: nat)
    requires x < n
    ensures x % n == x
  {
    ResidueOf(x, 0, x, n);
  }

  lemma AddMultiple(y: nat, q: nat, n: nat)
    requires n > 0
    ensures (y + n * q) % n == y % n
  {
    assert y == n * (y / n) + y % n;
    assert n * (y / n + q) == n * (y / n) + n * q;
    ResidueOf(y + n * q, y / n + q, y % n, n);
  }

  lemma AddToResidue(x: nat, o: nat, n: nat)
    requires n > 0
    ensures (x % n + o) % n == (x + o) % n
  {
    assert x == n * (x / n) + x % n;
    AddMultiple(x % n + o, x / n, n);
  }

  lemma ResidueOfResidue(x: nat, m: nat, n: nat)
    requires n > 0 && m > 0 && m % n == 0
    ensures x % m % n == x % n
  {
    var q, k := x / m, m / n;
    assert x == m * q + x % m && m == n * k;
    assert m * q == n * (k * q) by {
      Associates(n, k, q);
    }
    AddMultiple(x % m, k * q, n);
  }

  lemma Associates(n: nat, k: nat, q: nat)
    ensures (n * k) * q == n * (k * q)
  {
  }

  lemma DividesIsSmaller(m: nat, n: nat)
    requires n > 0 && m > 0 && m % n == 0
    ensures n <= m
  {
    if n > m {
      ResidueOf(m, 0, m, n);
    }
  }

  lemma RemainderAtMost(x: nat, n: nat)
    requires n > 0
    ensures x % n <= x
  {
  }

  lemma AddModulus(x: nat, n: nat)
    requires n > 0
    ensures (x + n) % n == x % n
  {
    assert x + n == n * (x / n + 1) + x % n;
    ResidueOf(x + n, x / n + 1, x % n, n);
  }

  lemma SameResidueFarApart(x: nat, y: nat, n: nat)
    requires n > 0 && x < y && x % n == y % n
    ensures x + n <= y
  {
    MultipleIsFar(y / n - x / n, n);
    assert y - x == (y / n - x / n) * n;
  }
}
