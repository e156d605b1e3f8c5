/** The extended-Euclid `modInverse` of the modular inverse tool
    (src/components/aether-vault/modular-inverse.tsx:41-66). Its `gcd` closure
    (lines 41-43) is the same recursion as `gcd` in src/lib/ciphers/core.ts and is
    `ModArith.Gcd`. The routine returns either a number or an explanatory string;
    the string is the constructor `NoInverse` carrying the two numbers it names. */
module InverseTool {
  import opened ModArith

  datatype Answer = Inverse(x: int) | NoInverse(a: int, m: int)

  /** `Math.floor(a / m)` on integers: the largest q with q <= a / m. */
  function FloorDiv(a: int, b: int): (q: int)
    requires b != 0
    ensures b > 0 ==> b * q <= a < b * q + b
    ensures b < 0 ==> b * q + b < a <= b * q
  {
    if b > 0 then a / b else (-a) / (-b)
  }

  /** The `x` the loop of lines 57-61 leaves behind, from the state (a, m, x, y). Each
      round replaces (a, m) by (m, a % m) and (x, y) by (y, x - q * y). While
      gcd(a, m) = 1 and a > 1, m is never 0. */
  function Euclid(a: int, m: int, x: int, y: int): int
    requires Gcd(a, m) == 1
    decreases Abs(m)
  {
    if a > 1 then Euclid(m, JsRem(a, m), y, x - FloorDiv(a, m) * y) else x
  }

  /** Line 63: a negative x is moved up by the original modulus. */
  function Adjusted(x: int, m0: int): int
  {
    if x < 0 then x + m0 else x
  }

  /** What `modInverse(a, m)` returns. */
  function ToolInverse(a: int, m: int): Answer
  {
    if Gcd(a, m) != 1 then NoInverse(a, m)
    else if m == 1 then Inverse(0)
    else Inverse(Adjusted(Euclid(a, m, 1, 0), m))
  }

  /** `modInverse` as the source runs it (lines 45-66). */
  method ModInverseLoop(aIn: int, mIn: int) returns (r: Answer)
    ensures r == ToolInverse(aIn, mIn)
  {
    var a, m := aIn, mIn;
    if Gcd(a, m) != 1 {
      return NoInverse(a, m);
    }
    var m0 := m;
    var y, x := 0, 1;
    if m == 1 {
      return Inverse(0);
    }
    while a > 1
      invariant Gcd(a, m) == 1
      invariant Euclid(a, m, x, y) == Euclid(aIn, mIn, 1, 0)
      decreases Abs(m)
    {
      var q := FloorDiv(a, m);
      a, m := m, JsRem(a, m);
      x, y := y, x - q * y;
    }
    if x < 0 {
      x := x + m0;
    }
    return Inverse(x);
  }

  /** The error answer comes exactly from a gcd other than 1 (lines 48-50). */
  lemma NoInverseIffGcd(a: int, m: int)
    ensures ToolInverse(a, m).NoInverse? <==> Gcd(a, m) != 1
    ensures ToolInverse(a, m).NoInverse? ==> ToolInverse(a, m) == NoInverse(a, m)
  {
  }

  /** With modulus 1 the answer is 0 for every a (line 55): gcd(a, 1) is always 1. */
  lemma ModulusOne(a: int)
    ensures ToolInverse(a, 1) == Inverse(0)
  {
    assert JsRem(a, 1) == 0;
  }

  /** The loop invariant: with coefficient bookkeeping x * a0 = a and y * a0 = m modulo
      m0, coefficients of opposite signs, and |x| * m + |y| * a = m0, the loop ends
      with an x of magnitude at most m0 and x * a0 = 1 modulo m0. */
  lemma {:induction false} EuclidSolves(a0: int, m0: int, a: int, m: int, x: int, y: int, kx: int, ky: int)
    returns (k: int)
    requires m0 >= 2 && a >= 1 && m >= 0 && Gcd(a, m) == 1
    requires x * y <= 0 && Abs(x) * m + Abs(y) * a == m0 && Abs(x) <= m0
    requires x * a0 - a == m0 * kx && y * a0 - m == m0 * ky
    ensures Abs(Euclid(a, m, x, y)) <= m0
    ensures Euclid(a, m, x, y) * a0 - 1 == m0 * k
    decreases m
  {
    if a > 1 {
      assert m != 0;
      var q := a / m;
      assert FloorDiv(a, m) == q;
      assert JsRem(a, m) == a - m * q;
      RoundKeepsBounds(m0, a, m, x, y, q);
      RoundKeepsResidues(a0, m0, a, m, x, y, kx, ky, q);
      k := EuclidSolves(a0, m0, m, a - m * q, y, x - q * y, ky, kx - q * ky);
    } else {
      k := kx;
    }
  }

  lemma RoundKeepsBounds(m0: int, a: int, m: int, x: int, y: int, q: int)
    requires a > 1 && m >= 1 && q == a / m
    requires x * y <= 0 && Abs(x) * m + Abs(y) * a == m0
    ensures m >= 1 && 0 <= a - m * q
    ensures y * (x - q * y) <= 0
    ensures Abs(y) * (a - m * q) + Abs(x - q * y) * m == m0
    ensures Abs(y) <= m0
  {
    assert a == m * q + a % m;
    assert q >= 0;
    OppositeSigns(x, y, q);
    Recombined(Abs(x), Abs(y), a, m, q);
    AtLeastOnce(Abs(y), a);
  }

  /** x - q * y for coefficients of opposite signs and q >= 0. */
  lemma OppositeSigns(x: int, y: int, q: int)
    requires x * y <= 0 && q >= 0
    ensures Abs(x - q * y) == Abs(x) + q * Abs(y)
    ensures y * (x - q * y) <= 0
  {
    assert y * (x - q * y) == x * y - q * (y * y);
    assert q * (y * y) >= 0;
    if y > 0 {
      assert x <= 0;
    } else if y < 0 {
      assert x >= 0;
    }
  }

  lemma Recombined(u: int, v: int, a: int, m: int, q: int)
    ensures v * (a - m * q) + (u + q * v) * m == u * m + v * a
  {
  }

  lemma AtLeastOnce(v: int, a: int)
    requires v >= 0 && a >= 1
    ensures v <= v * a
  {
  }

  lemma RoundKeepsResidues(a0: int, m0: int, a: int, m: int, x: int, y: int, kx: int, ky: int, q: int)
    requires x * a0 - a == m0 * kx && y * a0 - m == m0 * ky
    ensures (x - q * y) * a0 - (a - m * q) == m0 * (kx - q * ky)
  {
    assert (x - q * y) * a0 == x * a0 - q * (y * a0);
    assert m0 * (kx - q * ky) == m0 * kx - q * (m0 * ky);
  }

  /** For a >= 1, m > 1 and gcd(a, m) = 1 the answer is a number in [0, m) whose product
      with a is 1 modulo m (lines 57-65). */
  lemma ToolInverseCorrect(a: int, m: int)
    requires a >= 1 && m > 1 && Gcd(a, m) == 1
    ensures ToolInverse(a, m).Inverse?
    ensures 0 <= ToolInverse(a, m).x < m && Mod(a * ToolInverse(a, m).x, m) == 1
  {
    hide Euclid, Gcd, Adjusted;
    var k := EuclidSolves(a, m, a, m, 1, 0, 0, -1);
    var r := Euclid(a, m, 1, 0);
    NotPlusMinusModulus(a, m, r, k);
    var t := AdjustedSolves(a, m, r, k);
    ResidueOfCombination(a * Adjusted(r, m), m, -t);
  }

  /** Line 63 keeps the solution: r * a = 1 + m * k with |r| < m gives an x in [0, m). */
  lemma AdjustedSolves(a: int, m: int, r: int, k: int) returns (t: int)
    requires r * a - 1 == m * k && -m < r < m
    ensures 0 <= Adjusted(r, m) < m && a * Adjusted(r, m) - 1 == m * t
  {
    if r < 0 {
      assert (r + m) * a == r * a + m * a;
      t := k + a;
    } else {
      t := k;
    }
  }

  lemma NotPlusMinusModulus(a: int, m: int, r: int, k: int)
    requires m >= 2 && r * a - 1 == m * k && Abs(r) <= m
    ensures -m < r < m
  {
    NoUnitMultiple(m, a - k);
    NoUnitMultiple(m, -a - k);
  }

  lemma NoUnitMultiple(m: int, t: int)
    requires m >= 2
    ensures m * t != 1
  {
    if t >= 1 {
      AtLeastOnce(m, t);
    } else if t <= -1 {
      AtLeastOnce(m, -t);
    }
  }

  /** For a >= 0 and m >= 2 the tool agrees with the brute-force search of
      src/lib/ciphers/core.ts:8-14: the same inverse when there is one, and the
      error answer exactly when that search returns -1. */
  lemma AgreesWithSearch(a: int, m: int)
    requires a >= 0 && m >= 2
    ensures ToolInverse(a, m) == if ModInverseOf(a, m) == -1 then NoInverse(a, m) else Inverse(ModInverseOf(a, m))
  {
    var r := ModInverseOf(a, m);
    if Gcd(a, m) == 1 {
      assert a != 0;
      ToolInverseCorrect(a, m);
      CoprimeOfMod(a, m);
      ModInverseExistsIffCoprime(a, m);
      ModMulLeft(a, r, m);
      InverseUnique(a, m, ToolInverse(a, m).x, r);
    } else if r != -1 {
      ModMulLeft(a, r, m);
      InverseMakesCoprime(a, m, r);
      assert false;
    }
  }

  /** For negative numbers the gcd test can pass and the loop then never runs:
      `modInverse(-3, 7)` is 1, although -3 * 1 is 4 modulo 7 (the inverse is 2). */
  lemma NegativeNumberCounterexample()
    ensures ToolInverse(-3, 7) == Inverse(1) && Mod(-3 * 1, 7) == 4
    ensures ModInverseOf(-3, 7) == 2
  {
    assert JsRem(-3, 7) == -3 && JsRem(7, -3) == 1 && JsRem(-3, 1) == 0;
    assert Gcd(1, 0) == 1;
    assert Mod(-3, 7) == 4;
    assert Mod(4 * 1, 7) == 4 && Mod(4 * 2, 7) == 1;
  }

  /** A negative modulus: `modInverse(3, -26)` runs one round and returns 0. */
  lemma NegativeModulus()
    ensures ToolInverse(3, -26) == Inverse(0)
  {
    assert JsRem(3, -26) == 3 && JsRem(-26, 3) == -2 && JsRem(3, -2) == 1 && JsRem(-2, 1) == 0;
    assert Gcd(1, 0) == 1;
    assert FloorDiv(3, -26) == -1;
  }

  /** The routine with the number first reduced modulo m (for m >= 2), as the fix of
      `NegativeNumberCounterexample`. */
  function ToolInverseFixed(a: int, m: int): Answer
  {
    if m >= 2 then
      if Gcd(Mod(a, m), m) == 1 then Inverse(Adjusted(Euclid(Mod(a, m), m, 1, 0), m)) else NoInverse(a, m)
    else ToolInverse(a, m)
  }

  /** The corrected routine finds the inverse of every integer that has one, modulo every
      m >= 2, and agrees with the brute-force search. */
  lemma ToolInverseFixedCorrect(a: int, m: int)
    requires m >= 2
    ensures ToolInverseFixed(a, m) == if ModInverseOf(a, m) == -1 then NoInverse(a, m) else Inverse(ModInverseOf(a, m))
    ensures ToolInverseFixed(a, m).Inverse? ==> 0 <= ToolInverseFixed(a, m).x < m && Mod(a * ToolInverseFixed(a, m).x, m) == 1
  {
    var b := Mod(a, m);
    AgreesWithSearch(b, m);
    ModOfResidue(b, m);
    assert ModInverseOf(b, m) == ModInverseOf(a, m);
    var r := ModInverseOf(a, m);
    if r != -1 {
      ModMulLeft(a, r, m);
    }
  }
}
