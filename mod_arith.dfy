/** The modular arithmetic of the cipher core: `mod`, `gcd`, the brute-force
    `modInverse` and `isCoprime`. JavaScript's `%` truncates towards zero, so it
    is modelled explicitly as `JsRem`; Dafny's own `%` is Euclidean. */
module ModArith {

  function Abs(x: int): (r: int)
    ensures r >= 0 && (r == x || r == -x)
  {
    if x < 0 then -x else x
  }

  /** JavaScript's `a % b`: the remainder of division truncated towards zero. */
  function JsRem(a: int, b: int): (r: int)
    requires b != 0
    ensures Abs(r) < Abs(b)
    ensures a >= 0 ==> r >= 0
    ensures a <= 0 ==> r <= 0
  {
    var r := Abs(a) % Abs(b);
    if a < 0 then -r else r
  }

  /** The quotient that goes with `JsRem`. */
  function JsQuot(a: int, b: int): int
    requires b != 0
  {
    var q := Abs(a) / Abs(b);
    if (a < 0) == (b < 0) then q else -q
  }

  lemma JsDivision(a: int, b: int)
    requires b != 0
    ensures a == b * JsQuot(a, b) + JsRem(a, b)
  {
    var q, r := Abs(a) / Abs(b), Abs(a) % Abs(b);
    assert Abs(a) == Abs(b) * q + r;
    if a < 0 && b < 0 {
      assert a == -Abs(a) && b == -Abs(b);
      assert a == b * q - r;
    } else if a < 0 {
      assert a == -Abs(a) && b == Abs(b);
      assert a == b * -q - r;
    } else if b < 0 {
      assert a == Abs(a) && b == -Abs(b);
      assert a == b * -q + r;
    }
  }

  /** With a non-negative dividend and a positive divisor, `JsRem` is Dafny's `%`. */
  lemma JsRemNonNegative(a: int, b: int)
    requires a >= 0 && b > 0
    ensures JsRem(a, b) == a % b
  {
  }

  /** `mod(n, m)` of src/lib/ciphers/core.ts:2. For a positive modulus it is
      the Euclidean residue, in [0, m) and congruent to n; `ModIsSourceFormula`
      shows that it equals the source's `((n % m) + m) % m` for every m != 0. */
  function Mod(n: int, m: int): (r: int)
    requires m != 0
    ensures m > 0 ==> 0 <= r < m
  {
    if m > 0 then n % m else JsRem(JsRem(n, m) + m, m)
  }

  lemma ModIsSourceFormula(n: int, m: int)
    requires m != 0
    ensures Mod(n, m) == JsRem(JsRem(n, m) + m, m)
  {
    if m > 0 {
      ModIsEuclidean(n, m);
    }
  }

  lemma ModIsEuclidean(n: int, m: int)
    requires m > 0
    ensures JsRem(JsRem(n, m) + m, m) == n % m
  {
    var r1 := JsRem(n, m);
    JsDivision(n, m);
    var q := JsQuot(n, m);
    assert n == m * q + r1;
    assert 0 < r1 + m;
    JsRemNonNegative(r1 + m, m);
    SameResidue(r1 + m, n, m, 1 - q);
  }

  /** Two numbers that differ by a multiple of m have the same residue. */
  lemma SameResidue(x: int, y: int, m: int, k: int)
    requires m > 0
    requires x == y + m * k
    ensures x % m == y % m
  {
    var qy, ry := y / m, y % m;
    assert y == m * qy + ry && 0 <= ry < m;
    assert x == m * (qy + k) + ry;
    assert x / m == qy + k && x % m == ry by {
      DivModUnique(x, m, qy + k, ry);
    }
  }

  lemma DivModUnique(x: int, m: int, q: int, r: int)
    requires m > 0 && 0 <= r < m && x == m * q + r
    ensures x / m == q && x % m == r
  {
    var q', r' := x / m, x % m;
    assert m * (q - q') == r' - r;
    if q > q' {
      MulAtLeast(m, q - q');
    } else if q < q' {
      MulAtLeast(m, q' - q);
    }
  }

  lemma MulAtLeast(m: int, k: int)
    requires m > 0 && k >= 1
    ensures m * k >= m
  {
  }

  /** `mod` respects products: reducing a factor first does not change the residue. */
  lemma ModMulLeft(x: int, y: int, m: int)
    requires m > 0
    ensures Mod(Mod(x, m) * y, m) == Mod(x * y, m)
  {
    var q := x / m;
    assert x == m * q + Mod(x, m);
    assert x * y == Mod(x, m) * y + m * (q * y);
    SameResidue(x * y, Mod(x, m) * y, m, q * y);
  }

  lemma ModAddLeft(x: int, y: int, m: int)
    requires m > 0
    ensures Mod(Mod(x, m) + y, m) == Mod(x + y, m)
  {
    var q := x / m;
    assert x == m * q + Mod(x, m);
    SameResidue(x + y, Mod(x, m) + y, m, q);
  }

  lemma ModOfResidue(x: int, m: int)
    requires m > 0 && 0 <= x < m
    ensures Mod(x, m) == x
  {
    DivModUnique(x, m, 0, x);
  }

  // ---- gcd ----

  /** `gcd(a, b) = b === 0 ? a : gcd(b, a % b)` with JavaScript's truncating `%`;
      for negative arguments the result may be negative. */
  function Gcd(a: int, b: int): int
    decreases Abs(b)
  {
    if b == 0 then a else Gcd(b, JsRem(a, b))
  }

  /** `isCoprime(a, m) = gcd(a, m) === 1` */
  predicate IsCoprime(a: int, m: int) { Gcd(a, m) == 1 }

  /** d divides x (0 divides only 0). */
  predicate Divides(d: int, x: int) { if d == 0 then x == 0 else x % Abs(d) == 0 }

  lemma DividesWitness(d: int, x: int, k: int)
    requires x == d * k
    ensures Divides(d, x)
  {
    if d > 0 {
      DivModUnique(x, d, k, 0);
    } else if d < 0 {
      assert x == Abs(d) * -k;
      DivModUnique(x, Abs(d), -k, 0);
    }
  }

  lemma DividesQuotient(d: int, x: int) returns (k: int)
    requires Divides(d, x)
    ensures x == d * k
  {
    if d == 0 {
      k := 0;
    } else if d > 0 {
      k := x / d;
    } else {
      k := -(x / Abs(d));
    }
  }

  /** A common divisor of b and of a - b*q is a divisor of a, and conversely. */
  lemma DividesCombination(d: int, a: int, b: int, q: int)
    requires Divides(d, b)
    ensures Divides(d, a) <==> Divides(d, a - b * q)
  {
    var kb := DividesQuotient(d, b);
    if Divides(d, a) {
      var ka := DividesQuotient(d, a);
      assert a - b * q == d * (ka - kb * q);
      DividesWitness(d, a - b * q, ka - kb * q);
    }
    if Divides(d, a - b * q) {
      var kr := DividesQuotient(d, a - b * q);
      assert a == d * (kr + kb * q);
      DividesWitness(d, a, kr + kb * q);
    }
  }

  /** `gcd` computes a greatest common divisor: it divides both arguments, and
      every common divisor divides it. */
  lemma {:induction false} GcdIsGreatestCommonDivisor(a: int, b: int)
    ensures Divides(Gcd(a, b), a) && Divides(Gcd(a, b), b)
    ensures forall d :: Divides(d, a) && Divides(d, b) ==> Divides(d, Gcd(a, b))
    decreases Abs(b)
  {
    var g := Gcd(a, b);
    if b == 0 {
      DividesWitness(a, a, 1);
      DividesWitness(a, 0, 0);
    } else {
      var r := JsRem(a, b);
      JsDivision(a, b);
      var q := JsQuot(a, b);
      assert r == a - b * q;
      GcdIsGreatestCommonDivisor(b, r);
      DividesCombination(g, a, b, q);
      forall d | Divides(d, a) && Divides(d, b)
        ensures Divides(d, g)
      {
        DividesCombination(d, a, b, q);
      }
    }
  }

  /** Bezout's identity: the `gcd` result is an integer combination of the arguments. */
  lemma {:induction false} Bezout(a: int, b: int) returns (s: int, t: int)
    ensures s * a + t * b == Gcd(a, b)
    decreases Abs(b)
  {
    if b == 0 {
      s, t := 1, 0;
    } else {
      var r := JsRem(a, b);
      JsDivision(a, b);
      var q := JsQuot(a, b);
      var s', t' := Bezout(b, r);
      s, t := t', s' - t' * q;
      CombinationStep(a, b, q, r, s', t');
    }
  }

  lemma CombinationStep(a: int, b: int, q: int, r: int, s: int, t: int)
    requires r == a - b * q
    ensures s * b + t * r == t * a + (s - t * q) * b
  {
    assert t * r == t * a - (t * q) * b;
    assert (s - t * q) * b == s * b - (t * q) * b;
  }

  /** With non-negative arguments the `gcd` result is non-negative. */
  lemma {:induction false} GcdNonNegative(a: int, b: int)
    requires a >= 0 && b >= 0
    ensures Gcd(a, b) >= 0
    decreases b
  {
    if b != 0 {
      GcdNonNegative(b, JsRem(a, b));
    }
  }

  // ---- modInverse ----

  /** The search of `modInverse` (src/lib/ciphers/core.ts:8-14) from candidate x on:
      the first x' in [x, m) with mod(a * x', m) = 1, or -1 when there is none. */
  function InverseSearch(a: int, m: int, x: int): (r: int)
    requires m > 0 && x >= 1
    ensures r == -1 <==> forall y :: x <= y < m ==> Mod(a * y, m) != 1
    ensures r != -1 ==> x <= r < m && Mod(a * r, m) == 1
    ensures r != -1 ==> forall y :: x <= y < r ==> Mod(a * y, m) != 1
    decreases m - x
  {
    if x >= m then -1
    else if Mod(a * x, m) == 1 then x
    else InverseSearch(a, m, x + 1)
  }

  /** What `modInverse(a, m)` returns: the least x in [1, m) with
      mod(mod(a, m) * x, m) = 1, or -1 when there is none. For m <= 0 the loop
      never runs and the result is -1. */
  function ModInverseOf(a: int, m: int): (r: int)
    ensures m <= 0 ==> r == -1
    ensures m > 0 && r == -1 ==> forall y :: 1 <= y < m ==> Mod(Mod(a, m) * y, m) != 1
    ensures m > 0 && r != -1 ==> 1 <= r < m && Mod(Mod(a, m) * r, m) == 1
    ensures m > 0 && r != -1 ==> forall y :: 1 <= y < r ==> Mod(Mod(a, m) * y, m) != 1
  {
    if m <= 0 then -1 else InverseSearch(Mod(a, m), m, 1)
  }

  /** `modInverse` as the loop the source runs (src/lib/ciphers/core.ts:8-14). */
  method ModInverse(a: int, m: int) returns (r: int)
    ensures r == ModInverseOf(a, m)
  {
    if m <= 0 {
      return -1;
    }
    var a' := Mod(a, m);
    var x := 1;
    while x < m
      invariant 1 <= x
      invariant InverseSearch(a', m, x) == InverseSearch(a', m, 1)
      decreases m - x
    {
      if Mod(a' * x, m) == 1 {
        return x;
      }
      x := x + 1;
    }
    return -1;
  }

  /** An inverse is unique modulo m: two inverses of a in [0, m) are equal. */
  lemma InverseUnique(a: int, m: int, x: int, y: int)
    requires m > 0 && 0 <= x < m && 0 <= y < m
    requires Mod(a * x, m) == 1 && Mod(a * y, m) == 1
    ensures x == y
  {
    // x = x * (a * y) = (a * x) * y = y, all modulo m
    calc {
      x;
      { ModOfResidue(x, m); }
      Mod(x, m);
      Mod(1 * x, m);
      Mod(Mod(a * y, m) * x, m);
      { ModMulLeft(a * y, x, m); }
      Mod((a * y) * x, m);
      { assert (a * y) * x == (a * x) * y; }
      Mod((a * x) * y, m);
      { ModMulLeft(a * x, y, m); }
      Mod(Mod(a * x, m) * y, m);
      Mod(1 * y, m);
      { ModOfResidue(y, m); }
      y;
    }
  }

  /** For m >= 2, `modInverse(a, m)` fails exactly when gcd(mod(a, m), m) is not 1. */
  lemma ModInverseExistsIffCoprime(a: int, m: int)
    requires m >= 2
    ensures ModInverseOf(a, m) != -1 <==> IsCoprime(Mod(a, m), m)
  {
    if ModInverseOf(a, m) != -1 {
      InverseMakesCoprime(Mod(a, m), m, ModInverseOf(a, m));
    } else if IsCoprime(Mod(a, m), m) {
      var x := CoprimeHasInverse(Mod(a, m), m);
      assert false;
    }
  }

  lemma InverseMakesCoprime(a: int, m: int, x: int)
    requires m >= 2 && 0 <= a && Mod(a * x, m) == 1
    ensures IsCoprime(a, m)
  {
    var g := Gcd(a, m);
    GcdIsGreatestCommonDivisor(a, m);
    GcdNonNegative(a, m);
    var k := ResidueOneQuotient(a * x, m);
    var ka := DividesQuotient(g, a);
    var km := DividesQuotient(g, m);
    var c := CommonFactor(g, ka, km, a, m, x, k);
    GcdDividesOne(g, c);
  }

  /** A number with residue 1 is one more than a multiple of m. */
  lemma ResidueOneQuotient(y: int, m: int) returns (k: int)
    requires m >= 2 && Mod(y, m) == 1
    ensures y - m * k == 1
  {
    k := y / m;
  }

  lemma CommonFactor(g: int, ka: int, km: int, a: int, m: int, x: int, k: int) returns (c: int)
    requires a == g * ka && m == g * km
    requires a * x - m * k == 1
    ensures 1 == g * c
  {
    c := ka * x - km * k;
    assert a * x == g * (ka * x);
    assert m * k == g * (km * k);
  }

  lemma CoprimeHasInverse(a: int, m: int) returns (x: int)
    requires m >= 2 && 0 <= a < m && IsCoprime(a, m)
    ensures 1 <= x < m && Mod(a * x, m) == 1
  {
    var s, t := Bezout(a, m);
    x := Mod(s, m);
    ResidueOfCombination(s * a, m, t);
    ModMulLeft(s, a, m);
    assert x * a == a * x;
    DivModUnique(0, m, 0, 0);
    assert Mod(a * 0, m) == 0;
  }

  lemma ResidueOfCombination(y: int, m: int, t: int)
    requires m >= 2 && y + t * m == 1
    ensures Mod(y, m) == 1
  {
    assert y == 1 + m * -t;
    SameResidue(y, 1, m, -t);
    DivModUnique(1, m, 0, 1);
  }

  lemma GcdDividesOne(g: int, k: int)
    requires g >= 0 && 1 == g * k
    ensures g == 1
  {
  }

  /** A number that `isCoprime` accepts has a residue that `isCoprime` accepts. */
  lemma CoprimeOfMod(a: int, m: int)
    requires m >= 2 && IsCoprime(a, m)
    ensures IsCoprime(Mod(a, m), m)
  {
    var a' := Mod(a, m);
    var q := a / m;
    assert a' == a - m * q;
    GcdIsGreatestCommonDivisor(a, m);
    GcdIsGreatestCommonDivisor(a', m);
    GcdNonNegative(a', m);
    var g' := Gcd(a', m);
    DividesCombination(g', a, m, q);
    assert Divides(g', 1);
    DividesOneNonNegative(g');
  }

  lemma DividesOneNonNegative(d: int)
    requires d >= 0 && Divides(d, 1)
    ensures d == 1
  {
    if d > 1 {
      DivModUnique(1, d, 0, 1);
    }
  }

  /** The converse fails for negative numbers: `gcd(-3, 26)` is -1, so -3 is
      rejected although its residue 23 is coprime to 26. */
  lemma NegativeNotCoprime()
    ensures !IsCoprime(-3, 26) && IsCoprime(Mod(-3, 26), 26)
  {
    GcdOfMinusThree();
    assert Mod(-3, 26) == 23 by {
      assert JsRem(-3, 26) == -3 && JsRem(23, 26) == 23;
    }
    GcdOfTwentyThree();
  }

  lemma GcdOfMinusThree()
    ensures Gcd(-3, 26) == -1
  {
    assert JsRem(-3, 26) == -3 && JsRem(26, -3) == 2 && JsRem(-3, 2) == -1 && JsRem(2, -1) == 0;
    assert Gcd(-1, 0) == -1;
  }

  lemma GcdOfTwentyThree()
    ensures Gcd(23, 26) == 1
  {
    assert JsRem(23, 26) == 23 && JsRem(26, 23) == 3 && JsRem(23, 3) == 2 && JsRem(3, 2) == 1 && JsRem(2, 1) == 0;
    assert Gcd(1, 0) == 1;
  }

  /** With m = 1 there is never an inverse to find, although gcd(a, 1) = 1. */
  lemma ModInverseModulusOne(a: int)
    ensures ModInverseOf(a, 1) == -1 && IsCoprime(Mod(a, 1), 1)
  {
  }
}
