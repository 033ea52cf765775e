/** The constants of Montgomery arithmetic. */
module Montgomery {
  import opened Wrappers
  import opened Bits
  import opened Modular
  import opened Field

  // ----- constants

  function Abs(x: int): nat {
    if x < 0 then -x else x
  }

  /** Division that truncates toward zero. */
  function Quotient(a: int, b: int): int
    requires b != 0
  {
    if (a < 0) == (b < 0) then Abs(a) / Abs(b) else -(Abs(a) / Abs(b))
  }

  /** The remainder is smaller than the divisor and has the sign of the dividend. */
  lemma QuotientRemainder(a: int, b: int)
    requires b != 0
    ensures Abs(a - Quotient(a, b) * b) < Abs(b)
    ensures a >= 0 ==> a - Quotient(a, b) * b >= 0
    ensures a <= 0 ==> a - Quotient(a, b) * b <= 0
  {
    var s := Quotient(a, b);
    assert s == if (a < 0) == (b < 0) then Abs(a) / Abs(b) else -(Abs(a) / Abs(b));
    hide Quotient, Abs;
    DivideAbs(a, b, Abs(a), Abs(b), Abs(a) / Abs(b), s);
  }

  lemma DivideAbs(a: int, b: int, x: nat, y: nat, q: int, s: int)
    requires x == Abs(a) && y == Abs(b) && y > 0 && q == x / y && s == if (a < 0) == (b < 0) then q else -q
    ensures Abs(a - s * b) < y && (a >= 0 ==> a - s * b >= 0) && (a <= 0 ==> a - s * b <= 0)
  {
    assert x == y * q + x % y;
    SignedProduct(b, y, q);
  }

  lemma SignedProduct(b: int, y: nat, q: int)
    requires y == Abs(b)
    ensures q * b == (if b < 0 then -(y * q) else y * q) && -q * b == (if b < 0 then y * q else -(y * q))
  {
  }

  /** The remainder that goes with it. */
  function Remainder(a: int, b: int): int
    requires b != 0
  {
    a - Quotient(a, b) * b
  }

  /** The same common divisors. */
  ghost predicate SameDivisors(a: int, b: int, c: int, d: int) {
    forall e: nat :: e > 0 ==> ((Divides(e, a) && Divides(e, b)) <==> (Divides(e, c) && Divides(e, d)))
  }

  lemma EuclidStep(a: int, b: int, q: int)
    ensures SameDivisors(a, b, b, a - q * b)
  {
    hide Divides;
    forall e: nat | e > 0
      ensures (Divides(e, a) && Divides(e, b)) <==> (Divides(e, b) && Divides(e, a - q * b))
    {
      if Divides(e, a) && Divides(e, b) {
        DividesCombination(e, a, b, 1, -q);
        assert 1 * a + (-q) * b == a - q * b;
      }
      if Divides(e, b) && Divides(e, a - q * b) {
        DividesCombination(e, a - q * b, b, 1, q);
        assert 1 * (a - q * b) + q * b == a;
      }
    }
  }

  lemma BezoutStep(a: int, b: int, x: int, y: int, x1: int, y1: int, a1: int, b1: int, q: int)
    requires a * x + b * y == a1 && a * x1 + b * y1 == b1
    ensures a * (x - q * x1) + b * (y - q * y1) == a1 - q * b1
  {
    DistributeMinus(a, x, q * x1);
    DistributeMinus(b, y, q * y1);
    assert a * (q * x1) + b * (q * y1) == q * (a * x1 + b * y1) by {
      Distribute(q, a * x1, b * y1);
    }
  }

  /** Bezout coefficients; `g` has exactly the common divisors of `a` and `b`. */
  method ExtendedGcd(a: int, b: int) returns (g: int, x: int, y: int)
    ensures a * x + b * y == g
    ensures SameDivisors(a, b, g, 0)
    ensures a >= 0 && b >= 0 ==> g >= 0
  {
    x, y := 1, 0;
    var x1, y1 := 0, 1;
    var a1, b1 := a, b;
    while b1 != 0
      invariant a * x + b * y == a1 && a * x1 + b * y1 == b1
      invariant SameDivisors(a, b, a1, b1)
      invariant a >= 0 && b >= 0 ==> a1 >= 0 && b1 >= 0
      decreases Abs(b1)
    {
      hide SameDivisors, Quotient;
      var q := Quotient(a1, b1);
      QuotientRemainder(a1, b1);
      EuclidStep(a1, b1, q);
      SameDivisorsTransitive(a, b, a1, b1, b1, a1 - q * b1);
      BezoutStep(a, b, x, y, x1, y1, a1, b1, q);
      x, x1 := x1, x - q * x1;
      y, y1 := y1, y - q * y1;
      a1, b1 := b1, a1 - q * b1;
    }
    g := a1;
  }

  lemma SameDivisorsTransitive(a: int, b: int, c: int, d: int, e: int, f: int)
    requires SameDivisors(a, b, c, d) && SameDivisors(c, d, e, f)
    ensures SameDivisors(a, b, e, f)
  {
    hide Divides;
  }

  /** The representative in [0, m) that the source computes with two truncating remainders. */
  method Residue(x: int, m: nat) returns (r: nat)
    requires m > 0
    ensures r < m && Cong(m, x, r)
  {
    hide Quotient, Cong;
    QuotientRemainder(x, m);
    var y := Remainder(x, m) + m;
    QuotientRemainder(y, m);
    r := Remainder(y, m);
    ResidueIdentity(x, m, Quotient(x, m), Quotient(y, m));
    CongIntro(m, x, r, Quotient(x, m) + Quotient(y, m) - 1);
  }

  lemma ResidueIdentity(x: int, m: int, q: int, q': int)
    ensures x - (x - q * m + m - q' * m) == m * (q + q' - 1)
  {
    assert m * (q + q' - 1) == q * m + q' * m - m;
  }

  /**
   * The inverses of r modulo the modulus and of the modulus modulo r. There is no result exactly
   * if the two are not coprime or one of them is zero.
   */
  method CalculateMontgomeryConstants(modulus: nat, r: nat) returns (res: Option<(nat, nat)>)
    ensures res.Some? <==> modulus > 0 && r > 0 && Coprime(r, modulus)
    ensures res.Some? ==> res.value.0 < modulus && Cong(modulus, r * res.value.0, 1)
    ensures res.Some? ==> res.value.1 < r && Cong(r, modulus * res.value.1, 1)
  {
    hide Cong;
    var g, x, y := ExtendedGcd(r, modulus);
    GcdOne(r, modulus, g);
    if g != 1 || modulus == 0 || r == 0 {
      return None;
    }
    var rInverse := Residue(x, modulus);
    var nPrime := Residue(y, r);
    InverseFromBezout(r, modulus, x, y, rInverse);
    InverseFromBezout(modulus, r, y, x, nPrime);
    res := Some((rInverse, nPrime));
  }

  lemma GcdOne(a: nat, b: nat, g: int)
    requires SameDivisors(a, b, g, 0) && g >= 0
    ensures g == 1 <==> Coprime(a, b)
  {
    assert Divides(2, 0);
    if g != 0 {
      assert Divides(g, g) && Divides(g, 0);
    }
    if g == 1 {
      forall d: nat | d > 0 && Divides(d, a) && Divides(d, b)
        ensures d == 1
      {
        assert Divides(d, 1);
        if d > 1 {
          DivModUnique(1, d, 0, 1);
        }
      }
    }
  }

  lemma InverseFromBezout(a: nat, m: nat, x: int, y: int, x': nat)
    requires m > 0 && a * x + m * y == 1 && Cong(m, x, x')
    ensures Cong(m, a * x', 1)
  {
    hide Cong;
    CongReflexive(m, a);
    CongTimes(m, a, a, x, x');
    CongSymmetric(m, a * x, a * x');
    CongIntro(m, a * x, 1, -y);
    CongTransitive(m, a * x', a * x, 1);
  }

  lemma {:induction false} OddCoprimePow2(p: nat, n: nat)
    requires p % 2 == 1
    ensures Coprime(Pow2(n), p)
  {
    forall d: nat | d > 0 && Divides(d, Pow2(n)) && Divides(d, p)
      ensures d == 1
    {
      DivisorOfPow2(d, n);
      var k := DividesWitness(d, p);
      assert d * k == 2 * (d / 2 * k) + d % 2 * k by {
        Distribute(k, 2 * (d / 2), d % 2);
      }
    }
  }

  lemma {:induction false} DivisorOfPow2(d: nat, n: nat)
    requires d > 0 && Divides(d, Pow2(n))
    ensures d == 1 || d % 2 == 0
  {
    if n == 0 {
      if d > 1 {
        DivModUnique(1, d, 0, 1);
      }
    } else if d % 2 == 1 {
      var k := DividesWitness(d, Pow2(n));
      EvenCofactor(d, k, Pow2(n - 1));
      DividesIntro(d, Pow2(n - 1), k / 2);
      DivisorOfPow2(d, n - 1);
    }
  }

  lemma HalfFactor(d: int, k: int, h: int)
    requires k == 2 * h
    ensures d * k == 2 * (d * h)
  {
  }

  lemma EvenCofactor(d: nat, k: int, x: nat)
    requires d % 2 == 1 && d * k == 2 * x
    ensures k % 2 == 0 && d * (k / 2) == x
  {
    assert d * k == 2 * (d / 2 * k) + k by {
      Distribute(k, 2 * (d / 2), 1);
    }
    HalfFactor(d, k, k / 2);
  }

  /** For every odd modulus of n bits the constants exist, and make valid parameters. */
  method FieldParams(n: nat, p: nat) returns (f: Params, rInverse: nat)
    requires n >= 2 && p % 2 == 1 && Pow2(n - 1) < p < Pow2(n)
    ensures f.n == n && f.p == p && Valid(f)
    ensures rInverse < p && Cong(p, Pow2(n) * rInverse, 1)
  {
    hide Cong, Coprime;
    OddCoprimePow2(p, n);
    var res := CalculateMontgomeryConstants(p, Pow2(n));
    f, rInverse := Params(n, p, res.value.1), res.value.0;
  }
}
