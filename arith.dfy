/** Facts about Euclidean division and remainder used by the cipher models.
    For a positive divisor, Dafny's `%` and `/` agree with Python's floor
    remainder and floor division, which is how the modelled code uses them. */
module Arith {

  /** Division and remainder are determined by any decomposition a == q*m + r with 0 <= r < m. */
  lemma DivModUnique(a: int, m: int, q: int, r: int)
    requires m > 0 && 0 <= r < m && a == q * m + r
    ensures a / m == q && a % m == r
  {
    var q', r' := a / m, a % m;
    assert a == q' * m + r';
    assert (q - q') * m == r' - r;
    if q > q' {
      MulAtLeast(q - q', m);
    } else if q < q' {
      MulAtLeast(q' - q, m);
    }
  }

  lemma MulAtLeast(d: int, m: int)
    requires d >= 1 && m > 0
    ensures d * m >= m
  {
    assert d * m == (d - 1) * m + m;
    assert (d - 1) * m >= 0;
  }

  /** Adding a multiple of the modulus does not change the remainder. */
  lemma ModAddMultiple(a: int, k: int, m: int)
    requires m > 0
    ensures (a + k * m) % m == a % m
  {
    assert a + k * m == (a / m + k) * m + a % m;
    DivModUnique(a + k * m, m, a / m + k, a % m);
  }

  /** Reducing the left operand of a sum modulo m first does not change the remainder. */
  lemma ModAddMod(x: int, y: int, m: int)
    requires m > 0
    ensures (x % m + y) % m == (x + y) % m
  {
    assert x + y == (x % m + y) + (x / m) * m;
    ModAddMultiple(x % m + y, x / m, m);
  }

  /** Reducing the left operand of a difference modulo m first does not change the remainder. */
  lemma ModSubMod(x: int, y: int, m: int)
    requires m > 0
    ensures (x % m - y) % m == (x - y) % m
  {
    ModAddMod(x, -y, m);
  }

  /** Reducing the left factor of a product modulo m first does not change the remainder. */
  lemma ModMulMod(x: int, y: int, m: int)
    requires m > 0
    ensures ((x % m) * y) % m == (x * y) % m
  {
    assert x * y == (x % m) * y + (x / m * y) * m by {
      assert x == (x / m) * m + x % m;
    }
    ModAddMultiple((x % m) * y, x / m * y, m);
  }

  /** Subtracting g lands on residue i exactly when the value itself sits on residue i + g. */
  lemma ShiftResidue(x: int, g: int, i: int, m: int)
    requires m > 0 && 0 <= i < m
    ensures (x - g) % m == i <==> x % m == (i + g) % m
  {
    if (x - g) % m == i {
      assert x == ((x - g) / m) * m + (i + g);
      ModAddMultiple(i + g, (x - g) / m, m);
    }
    if x % m == (i + g) % m {
      assert x - g == (x / m - (i + g) / m) * m + i by {
        assert x == (x / m) * m + x % m;
        assert i + g == ((i + g) / m) * m + (i + g) % m;
      }
      DivModUnique(x - g, m, x / m - (i + g) / m, i);
    }
  }

  /** The remainder of a value already in [0, m) is the value itself. */
  lemma ModSmall(x: int, m: int)
    requires 0 <= x < m
    ensures x % m == x
  {
    DivModUnique(x, m, 0, x);
  }

  /** Multiplying by a non-negative factor preserves order. */
  lemma MulMonotone(x: int, y: int, n: int)
    requires x <= y && n >= 0
    ensures x * n <= y * n
  {
    assert y * n - x * n == (y - x) * n;
  }

  /** Products of three factors may be regrouped. */
  lemma MulSwap(a: int, q: int, i: int)
    ensures (a * q) * i == (a * i) * q
  {
  }

  /** Position t of row x, in rows of n, lies before row q. */
  lemma BelowProduct(x: int, q: int, n: int, t: int)
    requires 0 <= x < q && 0 <= t < n
    ensures t + x * n < q * n
  {
    MulMonotone(x + 1, q, n);
    assert (x + 1) * n == x * n + n;
  }

  /** Advancing a counter below n by one and reducing mod n wraps only at n. */
  lemma StepWrap(k: int, n: int)
    requires 0 <= k < n
    ensures (k + 1) % n == if k + 1 == n then 0 else k + 1
  {
    if k + 1 == n {
      DivModUnique(k + 1, n, 1, 0);
    } else {
      ModSmall(k + 1, n);
    }
  }

  /** Python's `x % m` for a positive modulus, by repeated addition or
      subtraction of m. Being recursive, it is unfolded only where a proof
      asks for it, which keeps quantified statements about residues cheap. */
  function FloorMod(x: int, m: int): (r: int)
    requires m >= 1
    ensures 0 <= r < m
    decreases if x < 0 then 1 else 0, if x < 0 then -x else x
  {
    if x < 0 then FloorMod(x + m, m)
    else if x < m then x
    else FloorMod(x - m, m)
  }

  /** FloorMod is Dafny's Euclidean remainder. */
  lemma {:induction false} FloorModIsMod(x: int, m: int)
    requires m >= 1
    ensures FloorMod(x, m) == x % m
    decreases if x < 0 then 1 else 0, if x < 0 then -x else x
  {
    if x < 0 {
      FloorModIsMod(x + m, m);
      ModAddMultiple(x, 1, m);
    } else if x < m {
      ModSmall(x, m);
    } else {
      FloorModIsMod(x - m, m);
      ModAddMultiple(x - m, 1, m);
    }
  }

  /** Python's `x // m` for a natural x and a positive m, by repeated subtraction. */
  function FloorDiv(x: nat, m: int): nat
    requires m >= 1
    decreases x
  {
    if x < m then 0 else FloorDiv(x - m, m) + 1
  }

  /** FloorDiv and FloorMod are Dafny's quotient and remainder. */
  lemma {:induction false} FloorDivIsDiv(x: nat, m: int)
    requires m >= 1
    ensures FloorDiv(x, m) == x / m && FloorMod(x, m) == x % m
    decreases x
  {
    if x < m {
      DivModUnique(x, m, 0, x);
    } else {
      FloorDivIsDiv(x - m, m);
      DivModUnique(x, m, (x - m) / m + 1, (x - m) % m);
    }
  }

  /** Quotient and remainder recompose the dividend. */
  lemma DivModParts(a: int, m: int)
    requires m > 0
    ensures a == (a / m) * m + a % m && 0 <= a % m < m
  {
  }
}
