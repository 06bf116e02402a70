/** Integer arithmetic modulo m with Python's semantics, powers, and the
    modular inverse that Python's `pow(x, -1, m)` and the field division of
    the prover compute. */
module ModArith {
  import opened Results

  /** Python's `a % m`: the remainder of floor division, which has the sign
      of the divisor. Dafny's own `%` is Euclidean and agrees for m > 0. */
  function PyMod(a: int, m: int): (r: int)
    requires m != 0
    ensures m > 0 ==> 0 <= r < m
    ensures m < 0 ==> m < r <= 0
  {
    if m > 0 then a % m else -((-a) % (-m))
  }

  /** a and b are congruent modulo m, as Python's `a % m == b % m` decides. */
  predicate Congruent(a: int, b: int, m: int)
    requires m != 0
  {
    PyMod(a, m) == PyMod(b, m)
  }

  predicate Divides(d: int, n: int) {
    d != 0 && n % d == 0
  }

  predicate Prime(p: int) {
    p > 1 && forall d :: 1 < d < p ==> !Divides(d, p)
  }

  function Pow(b: int, k: nat): int {
    if k == 0 then 1 else Pow(b, k - 1) * b
  }

  // ---------------------------------------------------------------------
  // Euclidean remainder facts (m > 0)
  // ---------------------------------------------------------------------

  lemma MulSign(k: int, m: int)
    requires m > 0
    ensures k >= 1 ==> k * m >= m
    ensures k <= -1 ==> k * m <= -m
  {
    if k >= 1 {
      assert (k - 1) * m >= 0;
      assert k * m == (k - 1) * m + m;
    } else if k <= -1 {
      assert (-k - 1) * m >= 0;
      assert k * m == -((-k - 1) * m) - m;
    }
  }

  lemma MulStrictlyBetween(k: int, m: int)
    requires m > 0 && -m < k * m < m
    ensures k == 0
  {
    MulSign(k, m);
  }

  /** Division with remainder is unique. */
  lemma ModUnique(a: int, q: int, r: int, m: int)
    requires m > 0 && a == q * m + r && 0 <= r < m
    ensures a % m == r && a / m == q
  {
    var q' := a / m;
    var r' := a % m;
    assert a == q' * m + r';
    assert (q - q') * m == r' - r;
    MulStrictlyBetween(q - q', m);
  }

  lemma ModAddMultiple(a: int, k: int, m: int)
    requires m > 0
    ensures (a + k * m) % m == a % m
  {
    assert a == (a / m) * m + a % m;
    assert a + k * m == (a / m + k) * m + a % m;
    ModUnique(a + k * m, a / m + k, a % m, m);
  }

  lemma ModMod(a: int, m: int)
    requires m > 0
    ensures (a % m) % m == a % m
  {
    ModUnique(a % m, 0, a % m, m);
  }

  lemma ModMulLeft(a: int, b: int, m: int)
    requires m > 0
    ensures ((a % m) * b) % m == (a * b) % m
  {
    var q := a / m;
    assert a == q * m + a % m;
    assert a * b == (a % m) * b + (q * b) * m;
    ModAddMultiple((a % m) * b, q * b, m);
  }

  lemma ModMulRight(a: int, b: int, m: int)
    requires m > 0
    ensures (a * (b % m)) % m == (a * b) % m
  {
    ModMulLeft(b, a, m);
    assert a * (b % m) == (b % m) * a;
    assert a * b == b * a;
  }

  lemma ModAddLeft(a: int, b: int, m: int)
    requires m > 0
    ensures ((a % m) + b) % m == (a + b) % m
  {
    var q := a / m;
    assert a == q * m + a % m;
    assert a + b == ((a % m) + b) + q * m;
    ModAddMultiple((a % m) + b, q, m);
  }

  /** A product is divisible by m as soon as one factor is. */
  lemma ZeroFactor(a: int, b: int, m: int)
    requires m > 0
    ensures a % m == 0 || b % m == 0 ==> (a * b) % m == 0
  {
    if a % m == 0 {
      calc {
        (a * b) % m;
        { ModMulLeft(a, b, m); }
        ((a % m) * b) % m;
        (0 * b) % m;
        0;
      }
    } else if b % m == 0 {
      calc {
        (a * b) % m;
        { ModMulRight(a, b, m); }
        (a * (b % m)) % m;
        (a * 0) % m;
        0;
      }
    }
  }

  // ---------------------------------------------------------------------
  // The same facts for Python's remainder, any nonzero divisor
  // ---------------------------------------------------------------------

  lemma PyModIdempotent(a: int, m: int)
    requires m != 0
    ensures PyMod(PyMod(a, m), m) == PyMod(a, m)
  {
    if m > 0 {
      ModMod(a, m);
    } else {
      ModMod(-a, -m);
    }
  }

  lemma PyModMulLeft(a: int, b: int, m: int)
    requires m != 0
    ensures PyMod(PyMod(a, m) * b, m) == PyMod(a * b, m)
  {
    if m > 0 {
      ModMulLeft(a, b, m);
    } else {
      var n, r := -m, (-a) % (-m);
      NegMul(r, b);
      NegMul(a, b);
      assert PyMod(PyMod(a, m) * b, m) == -((r * b) % n);
      assert PyMod(a * b, m) == -(((-a) * b) % n);
      ModMulLeft(-a, b, n);
    }
  }

  lemma NegMul(a: int, b: int)
    ensures (-a) * b == -(a * b)
  {
  }

  lemma PyModMulRight(a: int, b: int, m: int)
    requires m != 0
    ensures PyMod(a * PyMod(b, m), m) == PyMod(a * b, m)
  {
    PyModMulLeft(b, a, m);
    assert a * PyMod(b, m) == PyMod(b, m) * a;
    assert a * b == b * a;
  }

  lemma PyModAddLeft(a: int, b: int, m: int)
    requires m != 0
    ensures PyMod(PyMod(a, m) + b, m) == PyMod(a + b, m)
  {
    if m > 0 {
      ModAddLeft(a, b, m);
    } else {
      assert -(PyMod(a, m) + b) == (-a) % (-m) + (-b);
      ModAddLeft(-a, -b, -m);
    }
  }

  lemma PyModAddRight(a: int, b: int, m: int)
    requires m != 0
    ensures PyMod(a + PyMod(b, m), m) == PyMod(a + b, m)
  {
    PyModAddLeft(b, a, m);
  }

  /** Congruence is preserved by sums and products of congruent operands. */
  lemma CongruentAdd(a: int, b: int, a': int, b': int, m: int)
    requires m != 0 && Congruent(a, a', m) && Congruent(b, b', m)
    ensures Congruent(a + b, a' + b', m)
  {
    calc {
      PyMod(a + b, m);
      { PyModAddLeft(a, b, m); }
      PyMod(PyMod(a, m) + b, m);
      { PyModAddRight(PyMod(a, m), b, m); }
      PyMod(PyMod(a', m) + PyMod(b', m), m);
      { PyModAddRight(PyMod(a', m), b', m); }
      PyMod(PyMod(a', m) + b', m);
      { PyModAddLeft(a', b', m); }
      PyMod(a' + b', m);
    }
  }

  lemma CongruentMul(a: int, b: int, a': int, b': int, m: int)
    requires m != 0 && Congruent(a, a', m) && Congruent(b, b', m)
    ensures Congruent(a * b, a' * b', m)
  {
    calc {
      PyMod(a * b, m);
      { PyModMulLeft(a, b, m); }
      PyMod(PyMod(a, m) * b, m);
      { PyModMulRight(PyMod(a, m), b, m); }
      PyMod(PyMod(a', m) * PyMod(b', m), m);
      { PyModMulRight(PyMod(a', m), b', m); }
      PyMod(PyMod(a', m) * b', m);
      { PyModMulLeft(a', b', m); }
      PyMod(a' * b', m);
    }
  }

  /** Successive powers computed by multiply-then-reduce stay equal to the
      reduced power. */
  lemma PowStep(b: int, k: nat, m: int)
    requires m > 0
    ensures ((Pow(b, k) % m) * b) % m == Pow(b, k + 1) % m
  {
    ModMulLeft(Pow(b, k), b, m);
  }

  // ---------------------------------------------------------------------
  // Extended Euclid and the modular inverse
  // ---------------------------------------------------------------------

  lemma DividesLinear(g: int, x: int, y: int, k: int)
    requires g > 0 && x % g == 0 && y % g == 0
    ensures (k * x + y) % g == 0
  {
    assert x == (x / g) * g;
    assert y == (y / g) * g;
    assert k * x + y == (k * (x / g) + y / g) * g;
    ModUnique(k * x + y, k * (x / g) + y / g, 0, g);
  }

  /** One back-substitution step of extended Euclid: from a = q*b + r and
      s*b + t*r == g, the pair (t, s − q*t) combines a and b into g. */
  lemma EgcdStep(a: int, b: int, q: int, r: int, s: int, t: int)
    requires a == q * b + r
    ensures t * a + (s - q * t) * b == s * b + t * r
  {
    assert t * a == t * (q * b) + t * r;
    assert (s - q * t) * b == s * b - (q * t) * b;
    assert t * (q * b) == (q * t) * b;
  }

  /** Extended Euclid: (g, s, t) with s*a + t*b == g, where g divides both
      a and b. */
  function Egcd(a: nat, b: nat): (r: (int, int, int))
    decreases b
    ensures r.1 * a + r.2 * b == r.0
    ensures a > 0 || b > 0 ==> r.0 > 0 && a % r.0 == 0 && b % r.0 == 0
  {
    if b == 0 then (a, 1, 0)
    else
      var rec := Egcd(b, a % b);
      var g, s, t := rec.0, rec.1, rec.2;
      var q, rem := a / b, a % b;
      assert a == q * b + rem;
      EgcdStep(a, b, q, rem, s, t);
      DividesLinear(g, b, rem, q);
      (g, t, s - q * t)
  }

  /** The inverse of x modulo p, as `pow(x, -1, p)` returns it, or None
      when x has none (Python raises ValueError then). */
  function ModInverse(x: int, p: int): (r: Option<int>)
    requires p > 1
    ensures r.Some? ==> 0 <= r.value < p && (x * r.value) % p == 1
    ensures r.Some? ==> x % p != 0
  {
    var e := Egcd(x % p, p);
    if e.0 == 1 then
      var y := e.1 % p;
      assert (x * y) % p == 1 by {
        assert e.1 * (x % p) + e.2 * p == 1;
        ModAddMultiple(e.1 * (x % p), e.2, p);
        ModUnique(1, 0, 1, p);
        assert (e.1 * (x % p)) % p == 1;
        ModMulLeft(e.1, x % p, p);
        assert (y * (x % p)) % p == 1;
        assert y * (x % p) == (x % p) * y;
        ModMulLeft(x, y, p);
      }
      assert x % p != 0 by {
        ModMulLeft(x, y, p);
      }
      Some(y)
    else None
  }

  /** Multiplying a value scaled by d⁻¹ by d restores the unscaled residue. */
  lemma InverseCancels(x: int, inv: int, d: int, p: int)
    requires p > 1 && (d * inv) % p == 1
    ensures (((x * inv) % p) * d) % p == x % p
  {
    calc {
      (((x * inv) % p) * d) % p;
      { ModMulLeft(x * inv, d, p); }
      ((x * inv) * d) % p;
      { assert (x * inv) * d == x * (d * inv); }
      (x * (d * inv)) % p;
      { ModMulRight(x, d * inv, p); }
      (x * 1) % p;
    }
  }

  /** Over a prime modulus every nonzero residue has an inverse. */
  lemma {:induction false} InverseExists(x: int, p: int)
    requires Prime(p) && x % p != 0
    ensures ModInverse(x, p).Some?
  {
    var a := x % p;
    var e := Egcd(a, p);
    var g := e.0;
    assert g > 0 && a % g == 0 && p % g == 0;
    assert p == (p / g) * g;
    MulSign(p / g, g);
    ModUnique(a, 0, a, p);
    assert Divides(g, p);
  }

  /** The inverse modulo p is unique among residues, so the extended-Euclid
      value is the one Python's `pow(x, -1, p)` returns. */
  lemma {:induction false} InverseUnique(x: int, y: int, z: int, p: int)
    requires p > 1 && 0 <= y < p && 0 <= z < p
    requires (x * y) % p == 1 && (x * z) % p == 1
    ensures y == z
  {
    calc {
      y;
      { ModUnique(y, 0, y, p); }
      y % p;
      { ModUnique(y * 1, 0, y, p); }
      (y * 1) % p;
      { ModMulLeft(x * z, y, p); assert (x * z) % p * y == y * 1; }
      ((x * z) * y) % p;
      { assert (x * z) * y == (x * y) * z; }
      ((x * y) * z) % p;
      { ModMulLeft(x * y, z, p); assert (x * y) % p * z == z; }
      z % p;
      { ModUnique(z, 0, z, p); }
      z;
    }
  }

  /** With an inverse y of a, a prime-free form of Euclid's lemma: p | a*b
      forces p | b. */
  lemma CancelByInverse(a: int, b: int, y: int, p: int)
    requires p > 1 && (a * y) % p == 1 && (a * b) % p == 0
    ensures b % p == 0
  {
    var ay, ab := a * y, a * b;
    ModMulLeft(ay, b, p);
    assert (ay % p) * b == b;
    assert ay * b == ab * y by {
      MulSwapRight(a, y, b);
    }
    ModMulLeft(ab, y, p);
    assert (ab % p) * y == 0;
  }

  lemma MulSwapRight(a: int, b: int, c: int)
    ensures (a * b) * c == (a * c) * b
  {
  }

  /** Euclid's lemma: a prime dividing a product divides a factor. */
  lemma EuclidLemma(a: int, b: int, p: int)
    requires Prime(p)
    ensures (a * b) % p == 0 ==> a % p == 0 || b % p == 0
  {
    if a % p != 0 && (a * b) % p == 0 {
      InverseExists(a, p);
      CancelByInverse(a, b, ModInverse(a, p).value, p);
    }
  }
}
