/** Multiplication and exponentiation in Montgomery form. */
module MontgomeryField {
  import opened Bits
  import opened Modular
  import opened Field
  import opened BigIntSelect
  import opened BigIntCompare
  import opened BigIntMul
  import BigIntAdd

  // ----- reduction

  /** The multiple of the modulus that agrees with `x` in the low half. */
  lemma LowHalvesAgree(p: nat, m: nat, mInverse: nat, x: nat, low: nat, q: nat)
    requires m > 0 && Cong(m, p * mInverse, 1) && low == x % m && q == low * mInverse % m
    ensures q * p % m == low
  {
    hide Cong;
    CongMod(m, low * mInverse);
    CongReflexive(m, p);
    CongTimes(m, low * mInverse, q, p, p);
    CongSymmetric(m, (low * mInverse) * p, q * p);
    CongReflexive(m, low);
    CongTimes(m, p * mInverse, 1, low, low);
    assert (p * mInverse) * low == (low * mInverse) * p && 1 * low == low;
    CongTransitive(m, q * p, (low * mInverse) * p, low);
    CongSymmetric(m, q * p, low);
    CongIsMod(m, low, q * p);
  }

  /** The difference of the high halves times 2^n is congruent to `x`. */
  lemma HighHalves(p: nat, m: nat, x: nat, q: nat, product: nat, s: nat, r: nat)
    requires p > 0 && m > 0 && product == q * p && x % m == product % m && s == product / m
    requires r == x / m - s || r == x / m - s + p
    ensures Cong(p, r * m, x)
  {
    var d := x / m - s;
    assert x == m * (x / m) + x % m && product == m * s + x % m;
    DistributeMinus(m, x / m, s);
    assert d * m == m * d == x - product;
    if r == d {
      assert r * m - x == -(p * q) == p * (-1 * q);
      CongIntro(p, r * m, x, -1 * q);
    } else {
      Distribute(m, d, p);
      assert m * p == p * m && r * m == m * r && p * (m - q) == p * m - p * q;
      CongIntro(p, r * m, x, m - q);
    }
  }

  lemma QuotientBelow(p: nat, m: nat, q: nat, product: nat)
    requires p > 0 && q < m && product == q * p
    ensures product / m < p
  {
    MulMonotone(q, m - 1, p);
    assert (m - 1) * p == m * p - p;
    if product / m >= p {
      MulMonotone(p, product / m, m);
    }
  }

  /**
   * Montgomery reduction: x times the inverse of 2^n, canonical for every x below p * 2^n. The
   * conditional subtraction may wrap around, and is exact all the same.
   */
  method Reduce(f: Params, x: seq<bool>) returns (r: seq<bool>)
    requires Valid(f) && |x| == 2 * f.n
    ensures |r| == f.n && Cong(f.p, Num(r) * Pow2(f.n), Num(x))
    ensures Num(x) < f.p * Pow2(f.n) ==> Canonical(f, r)
  {
    Bounds(f);
    hide Num, Pow2, Cong, Valid;
    Inverses(f);
    var low, high := x[..f.n], x[f.n..];
    NumDivMod(x, f.n);
    NumBound(low);
    NumBound(high);
    var q := MulByConstantModuloPowerTwo(low, f.mInverse, f.n);
    NumBound(q);
    var product := MulByConstant(q, f.p);
    NumDivMod(product, f.n);
    var sub := product[f.n..];
    var modulus := ToBits(f.p, f.n);
    NumToBits(f.p, f.n);
    QuotientBelow(f.p, Pow2(f.n), Num(q), Num(product));
    r := ConditionalSubtract(f, high, sub, modulus);
    LowHalvesAgree(f.p, Pow2(f.n), f.mInverse, Num(x), Num(low), Num(q));
    HighHalves(f.p, Pow2(f.n), Num(x), Num(q), Num(product), Num(sub), Num(r));
    if Num(x) < f.p * Pow2(f.n) {
      HighBelow(Num(x), f.p, Pow2(f.n));
    }
  }

  lemma Inverses(f: Params)
    requires Valid(f)
    ensures f.mInverse < Pow2(f.n) && Cong(Pow2(f.n), f.p * f.mInverse, 1)
  {
  }

  lemma HighBelow(x: nat, p: nat, m: nat)
    requires m > 0 && x < p * m
    ensures x / m < p
  {
    if x / m >= p {
      MulMonotone(p, x / m, m);
    }
  }

  /** high - sub, plus the modulus if that is negative. */
  method ConditionalSubtract(f: Params, high: seq<bool>, sub: seq<bool>, modulus: seq<bool>) returns (r: seq<bool>)
    requires |high| == |sub| == |modulus| == f.n > 0 && Num(modulus) == f.p <= Pow2(f.n)
    requires Num(sub) < f.p
    ensures |r| == f.n
    ensures Num(r) == Num(high) - Num(sub) + if Num(sub) > Num(high) then f.p else 0
  {
    hide Num, Pow2;
    NumBound(high);
    var boundCheck := GreaterThan(sub, high);
    var ifTooMuch := SelfOrZero(modulus, boundCheck);
    var newSub := BigIntAdd.SubWithoutBorrow(sub, ifTooMuch);
    r := BigIntAdd.SubWithoutBorrow(high, newSub);
  }

  // ----- multiplication

  /** Multiplication of field elements, less one factor 2^n. */
  method MulMontgomery(f: Params, a: seq<bool>, b: seq<bool>) returns (r: seq<bool>)
    requires Valid(f) && f.n <= 4000 && Canonical(f, a) && Canonical(f, b)
    ensures Canonical(f, r) && Cong(f.p, Num(r) * Pow2(f.n), Num(a) * Num(b))
  {
    Bounds(f);
    hide Num, Pow2, Cong, Valid;
    var product := Mul(a, b);
    r := Reduce(f, product);
    MulBound(Num(a), f.p, Num(b), Pow2(f.n));
  }

  method SquareMontgomery(f: Params, a: seq<bool>) returns (r: seq<bool>)
    requires Valid(f) && f.n <= 4000 && Canonical(f, a)
    ensures Canonical(f, r) && Cong(f.p, Num(r) * Pow2(f.n), Num(a) * Num(a))
  {
    r := MulMontgomery(f, a, a);
  }

  /** Multiplication by a constant, with shortcuts for zero and for the Montgomery form of one. */
  method MulByConstantMontgomery(f: Params, a: seq<bool>, b: nat) returns (r: seq<bool>)
    requires Valid(f) && Canonical(f, a) && b < f.p
    ensures Canonical(f, r) && Cong(f.p, Num(r) * Pow2(f.n), Num(a) * b)
  {
    Bounds(f);
    hide Num, Pow2, Cong, Valid;
    if b == 0 {
      r := ToBits(0, f.n);
      NumToBits(0, f.n);
      CongReflexive(f.p, 0);
      assert Num(r) * Pow2(f.n) == 0 && Num(a) * b == 0;
      return;
    }
    if b == Pow2(f.n) % f.p {
      CongMod(f.p, Pow2(f.n));
      CongReflexive(f.p, Num(a));
      CongTimes(f.p, Num(a), Num(a), Pow2(f.n), b);
      r := a;
      return;
    }
    var product := MulByConstant(a, b);
    r := Reduce(f, product);
    MulBound(Num(a), f.p, b, Pow2(f.n));
  }

  // ----- Montgomery form

  /** `a` is the Montgomery form of `v`. */
  ghost predicate Represents(f: Params, a: seq<bool>, v: int)
    requires f.p > 0
  {
    Canonical(f, a) && Cong(f.p, Num(a), v * Pow2(f.n))
  }

  /** 2^n has an inverse modulo p. */
  lemma Pow2Invertible(f: Params) returns (inv: int)
    requires Valid(f)
    ensures Cong(f.p, Pow2(f.n) * inv, 1)
  {
    hide Cong, Pow2;
    var k := CongWitness(Pow2(f.n), f.p * f.mInverse, 1);
    inv := -k;
    CongIntro(f.p, Pow2(f.n) * inv, 1, -1 * f.mInverse);
  }

  /** The product of two Montgomery forms represents the product. */
  lemma ProductRepresents(f: Params, a: seq<bool>, v: int, b: seq<bool>, w: int, r: seq<bool>)
    requires Valid(f) && Represents(f, a, v) && Represents(f, b, w)
    requires Canonical(f, r) && Cong(f.p, Num(r) * Pow2(f.n), Num(a) * Num(b))
    ensures Represents(f, r, v * w)
  {
    var inv := Pow2Invertible(f);
    ProductCong(f.p, Pow2(f.n), inv, Num(a), v, Num(b), w, Num(r));
  }

  lemma ProductCong(p: nat, m: nat, inv: int, a: nat, v: int, b: nat, w: int, r: nat)
    requires p > 0 && Cong(p, m * inv, 1) && Cong(p, a, v * m) && Cong(p, b, w * m) && Cong(p, r * m, a * b)
    ensures Cong(p, r, (v * w) * m)
  {
    hide Cong;
    CongTimes(p, a, v * m, b, w * m);
    CongTransitive(p, r * m, a * b, (v * m) * (w * m));
    assert (v * m) * (w * m) == m * ((v * w) * m) && r * m == m * r;
    CongCancel(p, m, inv, r, (v * w) * m);
  }

  function Power(v: int, e: nat): int {
    if e == 0 then 1 else v * Power(v, e - 1)
  }

  lemma {:induction false} PowerAdd(v: int, d: nat, e: nat)
    ensures Power(v, d + e) == Power(v, d) * Power(v, e)
  {
    if d > 0 {
      PowerAdd(v, d - 1, e);
      assert v * (Power(v, d - 1) * Power(v, e)) == (v * Power(v, d - 1)) * Power(v, e);
    }
  }

  /** The exponent's bytes, at least 32 of them, as bits. */
  method ExponentBits(exp: nat) returns (bits: seq<bool>)
    ensures Num(bits) == exp
  {
    var len := 256;
    ExceedsPower(exp);
    while Pow2(len) <= exp
      invariant len >= 256
      decreases exp - len
    {
      ExceedsPower(len);
      len := len + 8;
    }
    bits := ToBits(exp, len);
    NumToBits(exp, len);
  }

  lemma {:induction false} ExceedsPower(n: nat)
    ensures n < Pow2(n)
  {
    if n > 0 {
      ExceedsPower(n - 1);
    }
  }

  /**
   * Square-and-multiply from the second highest one down. The exponent zero gives the plain one,
   * which is the Montgomery form of one only for a modulus of all ones.
   */
  method ExpByConstantMontgomery(f: Params, a: seq<bool>, exp: nat, ghost v: int) returns (r: seq<bool>)
    requires Valid(f) && f.n <= 4000 && Represents(f, a, v)
    ensures exp > 0 ==> Represents(f, r, Power(v, exp))
    ensures exp == 0 ==> Canonical(f, r) && Num(r) == 1
  {
    hide Cong, Pow2, Valid;
    if exp == 0 {
      r := ToBits(1, f.n);
      Bounds(f);
      NumToBits(1, f.n);
      return;
    }
    if exp == 1 {
      assert Power(v, 1) == v * Power(v, 0) == v;
      r := a;
      return;
    }
    hide Num;
    var bits := ExponentBits(exp);
    NumZeroBits(bits);
    var i := TopOne(bits);
    TopOneNum(bits, i);
    assert Power(v, 1) == v * Power(v, 0) == v;
    r := a;
    hide Represents, Power;
    var j: nat := i;
    while j > 0
      invariant j <= |bits| && Num(bits[j..]) > 0 && Represents(f, r, Power(v, Num(bits[j..])))
    {
      j := j - 1;
      var square := SquareOf(f, r, Power(v, Num(bits[j + 1..])));
      r := TimesIf(f, a, v, square, bits[j], Power(v, Num(bits[j + 1..])));
      NumUncons(bits[j..]);
      assert bits[j..][1..] == bits[j + 1..];
      ExponentStep(v, Num(bits[j + 1..]), bits[j]);
    }
    assert bits[0..] == bits;
  }

  /** The step of square-and-multiply on exponents. */
  lemma ExponentStep(v: int, e: nat, b: bool)
    ensures Power(v, Bit(b) + 2 * e) == if b then v * (Power(v, e) * Power(v, e)) else Power(v, e) * Power(v, e)
  {
    PowerAdd(v, e, e);
    if b {
      PowerAdd(v, 1, 2 * e);
      assert Power(v, 1) == v * Power(v, 0) == v;
    }
  }

  method SquareOf(f: Params, a: seq<bool>, ghost v: int) returns (r: seq<bool>)
    requires Valid(f) && f.n <= 4000 && Represents(f, a, v)
    ensures Represents(f, r, v * v)
  {
    hide Cong, Num, Pow2, Valid;
    r := SquareMontgomery(f, a);
    ProductRepresents(f, a, v, a, v, r);
  }

  method TimesIf(f: Params, a: seq<bool>, ghost v: int, square: seq<bool>, b: bool, ghost w: int) returns (r: seq<bool>)
    requires Valid(f) && f.n <= 4000 && Represents(f, a, v) && Represents(f, square, w * w)
    ensures Represents(f, r, if b then v * (w * w) else w * w)
  {
    hide Cong, Num, Pow2, Valid;
    if b {
      r := MulMontgomery(f, a, square);
      ProductRepresents(f, a, v, square, w * w, r);
    } else {
      r := square;
    }
  }

  /** The highest one. */
  method TopOne(bits: seq<bool>) returns (i: nat)
    requires exists j :: 0 <= j < |bits| && bits[j]
    ensures i < |bits| && bits[i] && forall j :: i < j < |bits| ==> !bits[j]
  {
    i := |bits| - 1;
    while !bits[i]
      invariant i < |bits| && forall j :: i < j < |bits| ==> !bits[j]
      invariant exists j :: 0 <= j <= i && bits[j]
      decreases i
    {
      i := i - 1;
    }
  }

  lemma TopOneNum(bits: seq<bool>, i: nat)
    requires i < |bits| && bits[i] && forall j :: i < j < |bits| ==> !bits[j]
    ensures Num(bits[i..]) == 1
  {
    NumUncons(bits[i..]);
    NumZeros(bits[i..][1..]);
  }

  /** When the plain one is the Montgomery form of one. */
  lemma PlainOne(f: Params, r: seq<bool>)
    requires Valid(f) && Canonical(f, r) && Num(r) == 1
    ensures Represents(f, r, 1) <==> f.p == Pow2(f.n) - 1
  {
    Bounds(f);
    hide Pow2, Num, Valid;
    if Represents(f, r, 1) {
      var k := CongWitness(f.p, 1, 1 * Pow2(f.n));
      assert k >= 0 ==> f.p * k >= 0;
      MulSuccessor(f.p, k, -1);
    }
    if f.p == Pow2(f.n) - 1 {
      CongIntro(f.p, 1, 1 * Pow2(f.n), -1);
    }
  }
}
