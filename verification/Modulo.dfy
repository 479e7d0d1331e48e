/** Remainders by a variable divisor. */
module Modulo {
  lemma MulGrows(n: nat, k: int)
    requires k >= 1
    ensures n * k >= n
  {
    assert n * k == n * (k - 1) + n;
    assert n * (k - 1) >= 0;
  }

  lemma ModuloUnique(x: int, n: nat, q: int, r: nat)
    requires r < n && x == n * q + r
    ensures x % n == r
  {
    var q', r' := x / n, x % n;
    assert n * (q - q') == r' - r by {
      assert x == n * q' + r';
      assert n * (q - q') == n * q - n * q';
    }
    assert n * (q' - q) == -(n * (q - q'));
    if q > q' {
      MulGrows(n, q - q');
      assert false;
    } else if q < q' {
      MulGrows(n, q' - q);
      assert false;
    }
  }

  lemma ModuloDrop(x: nat, m: nat, n: nat)
    requires n > 0 && m > 0 && m % n == 0
    ensures (x % m) % n == x % n
  {
    var y, k, q := x % m, m / n, x / m;
    assert m == n * k && x == m * q + y;
    assert m * q == n * (k * q);
    assert y == n * (y / n) + y % n;
    assert n * (k * q) + n * (y / n) == n * (k * q + y / n);
    ModuloUnique(x, n, k * q + y / n, y % n);
  }

  lemma SlotsDiffer(i: nat, j: nat, n: nat)
    requires n > 0 && i < j < i + n
    ensures i % n != j % n
  {
    var a, b := i / n, j / n;
    assert i == n * a + i % n && j == n * b + j % n;
    assert n * b - n * a == n * (b - a) == -(n * (a - b));
    if b > a {
      MulGrows(n, b - a);
    } else if b < a {
      MulGrows(n, a - b);
      assert false;
    }
  }
}
