/** The fixed-iteration binary inverse. */
module Inverse {
  import opened Gates
  import opened Bits
  import opened Modular
  import opened Field
  import opened BigIntSelect
  import opened BigIntCompare
  import opened MontgomeryField
  import BigIntAdd

  // ----- the iteration on numbers

  datatype Nums = Nums(u: nat, v: nat, r: nat, s: nat, k: nat)

  /** One round: nothing once v is one, otherwise one halving. */
  function Round(x: Nums): Nums {
    if x.v == 1 then x
    else if x.u % 2 == 0 then Nums(x.u / 2, x.v, x.r, 2 * x.s, x.k + 1)
    else if x.v % 2 == 0 then Nums(x.u, x.v / 2, 2 * x.r, x.s, x.k + 1)
    else if x.u > x.v then Nums(x.u / 2 - x.v / 2, x.v, x.r + x.s, 2 * x.s, x.k + 1)
    else Nums(x.u, x.v / 2 - x.u / 2, 2 * x.r, x.r + x.s, x.k + 1)
  }

  /** The positive combination that stays p, and the congruences of r and s. */
  ghost predicate Balanced(f: Params, odd: nat, x: Nums)
    requires f.p > 0
  {
    && x.u > 0 && x.v > 0 && x.r > 0 && x.s > 0
    && x.u * x.s + x.v * x.r == f.p
    && Cong(f.p, odd * x.s, x.v * Pow2(x.k))
    && Cong(f.p, odd * x.r, (-1 * x.u) * Pow2(x.k))
    && Coprime(x.u, x.v)
  }

  /** u * v is halved at least k - 1 times from at most p^2 / 8. */
  ghost predicate Shrinking(f: Params, x: Nums) {
    x.k >= 1 && x.u * x.v * Pow2(x.k + 2) < Pow2(2 * f.n)
  }

  // ----- each round keeps them

  lemma HalvedCong(p: nat, x: int, y: int, z: int, k: nat)
    requires p > 0 && Cong(p, x, y * Pow2(k)) && y == 2 * z
    ensures Cong(p, x, z * Pow2(k + 1))
  {
    assert y * Pow2(k) == z * (2 * Pow2(k));
  }

  lemma DoubledCong(p: nat, odd: int, x: int, y: int, k: nat)
    requires p > 0 && Cong(p, odd * x, y * Pow2(k))
    ensures Cong(p, odd * (2 * x), y * Pow2(k + 1))
  {
    hide Cong;
    CongAdd(p, odd * x, y * Pow2(k), odd * x, y * Pow2(k));
    assert odd * (2 * x) == odd * x + odd * x && y * Pow2(k + 1) == y * Pow2(k) + y * Pow2(k);
  }

  lemma AddedCong(p: nat, odd: int, x: int, y: int, a: int, b: int, z: int, k: nat)
    requires p > 0 && Cong(p, odd * x, a * Pow2(k)) && Cong(p, odd * y, b * Pow2(k)) && a + b == 2 * z
    ensures Cong(p, odd * (x + y), z * Pow2(k + 1))
  {
    hide Cong;
    CongAdd(p, odd * x, a * Pow2(k), odd * y, b * Pow2(k));
    Distribute(odd, x, y);
    Distribute(Pow2(k), a, b);
    HalvedCong(p, odd * (x + y), a + b, z, k);
  }

  /** A common divisor of the new pair divides the old pair. */
  lemma CoprimeFrom(u: int, v: int, u': int, v': int, a: int, b: int, c: int, d: int)
    requires Coprime(u, v) && u == a * u' + b * v' && v == c * u' + d * v'
    ensures Coprime(u', v')
  {
    forall e: nat | e > 0 && Divides(e, u') && Divides(e, v')
      ensures e == 1
    {
      DividesCombination(e, u', v', a, b);
      DividesCombination(e, u', v', c, d);
    }
  }

  lemma CoprimeSelf(u: nat)
    requires u > 0 && Coprime(u, u)
    ensures u == 1
  {
    DividesIntro(u, u, 1);
  }

  lemma BalanceHalfU(u: nat, v: nat, r: nat, s: nat, p: nat, h: nat)
    requires u * s + v * r == p && u == 2 * h
    ensures h * (2 * s) + v * r == p
  {
    assert h * (2 * s) == (2 * h) * s;
  }

  lemma BalanceSub(u: nat, v: nat, r: nat, s: nat, p: nat, h: nat)
    requires u * s + v * r == p && u == 2 * h + v
    ensures h * (2 * s) + v * (r + s) == p
  {
    assert h * (2 * s) + v * s == (2 * h + v) * s by {
      Distribute(s, 2 * h, v);
    }
    Distribute(v, r, s);
  }

  lemma RoundBalanced(f: Params, odd: nat, x: Nums)
    requires f.p > 0 && Balanced(f, odd, x)
    ensures Balanced(f, odd, Round(x))
  {
    hide Cong, Coprime, Pow2;
    var p, r, s, k := f.p, x.r, x.s, x.k;
    var u: int, v: int := x.u, x.v;
    var minusU: int := -u;
    if v == 1 {
    } else if u % 2 == 0 {
      BalanceHalfU(u, v, r, s, p, u / 2);
      DoubledCong(p, odd, s, v, k);
      HalvedCong(p, odd * r, minusU, -1 * (u / 2), k);
      CoprimeFrom(u, v, u / 2, v, 2, 0, 0, 1);
    } else if v % 2 == 0 {
      BalanceHalfU(v, u, s, r, p, v / 2);
      DoubledCong(p, odd, r, minusU, k);
      HalvedCong(p, odd * s, v, v / 2, k);
      CoprimeFrom(u, v, u, v / 2, 1, 0, 0, 2);
    } else if u > v {
      BalanceSub(u, v, r, s, p, u / 2 - v / 2);
      DoubledCong(p, odd, s, v, k);
      AddedCong(p, odd, r, s, minusU, v, -1 * (u / 2 - v / 2), k);
      CoprimeFrom(u, v, u / 2 - v / 2, v, 2, 1, 0, 1);
    } else {
      if u == v {
        CoprimeSelf(u);
      }
      BalanceSub(v, u, s, r, p, v / 2 - u / 2);
      DoubledCong(p, odd, r, minusU, k);
      AddedCong(p, odd, r, s, minusU, v, v / 2 - u / 2, k);
      CoprimeFrom(u, v, u, v / 2 - u / 2, 1, 0, 1, 2);
    }
  }

  lemma HalvedProduct(a: nat, b: nat, a': nat, m: nat)
    requires 2 * a' <= a
    ensures a' * b * (2 * m) <= a * b * m
  {
    MulMonotone(2 * a', a, b * m);
    assert a' * b * (2 * m) == 2 * a' * (b * m) && a * b * m == a * (b * m);
  }

  lemma RoundShrinks(f: Params, x: Nums)
    requires x.u > 0 && x.v > 0 && Shrinking(f, x)
    ensures Shrinking(f, Round(x)) && Round(x).k == if x.v == 1 then x.k else x.k + 1
  {
    hide Pow2;
    if x.v != 1 {
      var y := Round(x);
      Pow2Next(x.k + 2);
      if y.v == x.v {
        HalvedProduct(x.u, x.v, y.u, Pow2(x.k + 2));
      } else {
        HalvedProduct(x.v, x.u, y.v, Pow2(x.k + 2));
        assert x.v * x.u == x.u * x.v && y.v * y.u == y.u * y.v;
      }
    }
  }

  lemma Pow2Next(k: nat)
    ensures Pow2(k + 1) == 2 * Pow2(k)
  {
  }

  // ----- start and end

  lemma Start(f: Params, odd: nat, u: nat)
    requires Valid(f) && 0 < odd < f.p && odd % 2 == 1 && Coprime(odd, f.p) && 2 * u == f.p - odd
    ensures Balanced(f, odd, Nums(u, odd, 1, 2, 1)) && Shrinking(f, Nums(u, odd, 1, 2, 1))
  {
    StartBalanced(f.p, odd, u);
    StartSmall(f.p, odd, u, Pow2(f.n), Pow2(3));
    Bounds(f);
    Pow2Add(f.n, f.n);
    assert Pow2(3) == 8;
  }

  lemma StartBalanced(p: nat, odd: nat, u: nat)
    requires 0 < odd < p && Coprime(odd, p) && 2 * u == p - odd
    ensures Cong(p, odd * 2, odd * Pow2(1)) && Cong(p, odd * 1, (-1 * u) * Pow2(1)) && Coprime(u, odd)
    ensures u * 2 + odd * 1 == p
  {
    assert Pow2(1) == 2;
    CongReflexive(p, odd * 2);
    CongIntro(p, odd * 1, (-1 * u) * 2, 1);
    CoprimeFrom(odd, p, u, odd, 0, 1, 2, 1);
  }

  lemma StartSmall(p: nat, odd: nat, u: nat, m: nat, eight: nat)
    requires odd <= p < m && 2 * u == p - odd && eight == 8
    ensures u * odd * eight < m * m
  {
    var d := p - 2 * odd;
    assert u * odd * 8 == 4 * ((2 * u) * odd) == 4 * ((p - odd) * odd);
    assert p * p - 4 * ((p - odd) * odd) == d * d >= 0;
    MulBound(p, m, p, m);
  }

  /** The counter is bounded, and all numbers stay below the modulus. */
  lemma RoundBounds(f: Params, odd: nat, x: Nums)
    requires Valid(f) && Balanced(f, odd, x) && Shrinking(f, x)
    ensures x.u < f.p && x.v < f.p && x.r < f.p && x.s < f.p
    ensures x.k <= 2 * f.n - 3 && x.k < f.p < Pow2(f.n)
  {
    ProductsBelow(x.u, x.s, x.v, x.r, f.p);
    CountBound(x, f.n);
    SmallCount(f.n);
  }

  lemma ProductsBelow(u: nat, s: nat, v: nat, r: nat, p: nat)
    requires u > 0 && s > 0 && v > 0 && r > 0 && u * s + v * r == p
    ensures u < p && s < p && v < p && r < p
  {
    MulMonotone(1, u, s);
    MulMonotone(1, s, u);
    MulMonotone(1, v, r);
    MulMonotone(1, r, v);
    assert s * u == u * s && r * v == v * r;
  }

  lemma CountBound(x: Nums, n: nat)
    requires x.u > 0 && x.v > 0 && x.u * x.v * Pow2(x.k + 2) < Pow2(2 * n)
    ensures x.k + 2 < 2 * n
  {
    hide Pow2;
    var m := x.u * x.v;
    assert m >= 1;
    MulMonotone(1, m, Pow2(x.k + 2));
    if x.k + 2 >= 2 * n {
      Pow2Monotone(2 * n, x.k + 2);
    }
  }

  lemma {:induction false} SmallCount(n: nat)
    requires n >= 2
    ensures 2 * n - 3 < Pow2(n - 1)
  {
    if n > 2 {
      SmallCount(n - 1);
      Pow2Monotone(1, n - 2);
      assert Pow2(1) == 2;
    }
  }

  /** With the round's results below 2^n, nothing wraps around. */
  lemma RoundKeeps(f: Params, odd: nat, x: Nums)
    requires Valid(f) && Balanced(f, odd, x) && Shrinking(f, x)
    ensures Balanced(f, odd, Round(x)) && Shrinking(f, Round(x))
    ensures Round(x).k == if x.v == 1 then x.k else x.k + 1
    ensures WrappedRound(x, Pow2(f.n)) == Round(x)
  {
    Bounds(f);
    RoundBalanced(f, odd, x);
    RoundShrinks(f, x);
    RoundBounds(f, odd, Round(x));
    hide Balanced, Shrinking, Pow2;
    WrapsNothing(x, Pow2(f.n));
  }

  lemma WrapsNothing(x: Nums, m: nat)
    requires m > 0 && Round(x).r < m && Round(x).s < m && Round(x).k < m
    ensures WrappedRound(x, m) == Round(x)
  {
    if x.v != 1 {
      var y := Round(x);
      DivModUnique(y.r, m, 0, y.r);
      DivModUnique(y.s, m, 0, y.s);
      DivModUnique(y.k, m, 0, y.k);
      assert x.u % 2 == 0 || x.v % 2 == 0 || x.u > x.v || x.u <= x.v;
    }
  }

  /** The round as n-bit wires compute it, where m is 2^n. */
  function WrappedRound(x: Nums, m: nat): Nums
    requires m > 0
  {
    if x.v == 1 then x else ActiveRound(x, m)
  }

  function ActiveRound(x: Nums, m: nat): Nums
    requires m > 0
  {
    if x.u % 2 == 0 then Nums(x.u / 2, x.v, x.r, 2 * x.s % m, (x.k + 1) % m)
    else if x.v % 2 == 0 then Nums(x.u, x.v / 2, 2 * x.r % m, x.s, (x.k + 1) % m)
    else if x.u > x.v then Nums(x.u / 2 - x.v / 2, x.v, (x.r + x.s) % m, 2 * x.s % m, (x.k + 1) % m)
    else Nums(x.u, x.v / 2 - x.u / 2, 2 * x.r % m, (x.r + x.s) % m, (x.k + 1) % m)
  }

  // ----- the iteration on wires

  datatype IterationContext = IterationContext(u: seq<bool>, v: seq<bool>, r: seq<bool>, s: seq<bool>, k: seq<bool>)

  ghost function Values(c: IterationContext): Nums {
    Nums(Num(c.u), Num(c.v), Num(c.r), Num(c.s), Num(c.k))
  }

  predicate Wide(c: IterationContext, n: nat) {
    |c.u| == |c.v| == |c.r| == |c.s| == |c.k| == n
  }

  /** The sum of four masked candidates, of which one is unmasked. */
  method MaskedSum(x1: seq<bool>, x2: seq<bool>, x3: seq<bool>, x4: seq<bool>, notP1: bool, p2: bool, p3: bool,
                   p4: bool)
    returns (r: seq<bool>)
    requires |x1| == |x2| == |x3| == |x4| > 0
    requires Bit(!notP1) + Bit(p2) + Bit(p3) + Bit(p4) == 1
    ensures |r| == |x1|
    ensures Num(r) == Num(if p2 then x2 else if p3 then x3 else if p4 then x4 else x1)
  {
    hide Num, Pow2;
    NumBound(x1);
    NumBound(x2);
    NumBound(x3);
    NumBound(x4);
    var m1 := SelfOrZeroInv(x1, notP1);
    var m2 := SelfOrZero(x2, p2);
    var m3 := SelfOrZero(x3, p3);
    var m4 := SelfOrZero(x4, p4);
    var a1 := BigIntAdd.AddWithoutCarry(m1, m2);
    Unwrapped(Num(m1) + Num(m2), Pow2(|x1|));
    var a2 := BigIntAdd.AddWithoutCarry(a1, m3);
    Unwrapped(Num(a1) + Num(m3), Pow2(|x1|));
    r := BigIntAdd.AddWithoutCarry(a2, m4);
    Unwrapped(Num(a2) + Num(m4), Pow2(|x1|));
  }

  lemma Unwrapped(x: nat, m: nat)
    requires x < m
    ensures x % m == x
  {
    DivModUnique(x, m, 0, x);
  }

  /** Which of the four candidates the parities of u and v and their comparison select. */
  method Signals(u: seq<bool>, v: seq<bool>) returns (notX1: bool, p2: bool, p3: bool, p4: bool)
    requires |u| == |v| > 0
    ensures Bit(!notX1) + Bit(p2) + Bit(p3) + Bit(p4) == 1
    ensures !notX1 <==> Num(u) % 2 == 0
    ensures p2 <==> Num(u) % 2 == 1 && Num(v) % 2 == 0
    ensures p3 <==> Num(u) % 2 == 1 && Num(v) % 2 == 1 && Num(u) > Num(v)
  {
    NumUncons(u);
    NumUncons(v);
    hide Num;
    notX1 := u[0];
    var notX2 := v[0];
    var x3 := GreaterThan(u, v);
    p2 := Truth(AndVariant(false, true, false), notX1, notX2);
    var wires2 := Truth(And, notX1, notX2);
    p3 := Truth(And, wires2, x3);
    p4 := Truth(Nimp, wires2, x3);
  }

  /** The next numbers of an active round; candidates that the source computes twice are shared. */
  method NextValues(f: Params, c: IterationContext) returns (c': IterationContext)
    requires Valid(f) && Wide(c, f.n)
    ensures Wide(c', f.n) && Values(c') == ActiveRound(Values(c), Pow2(f.n))
  {
    Bounds(f);
    hide Num, Pow2, Valid;
    var IterationContext(u, v, r, s, k) := c;
    var notX1, p2, p3, p4 := Signals(u, v);
    var newU, newV := NextPair(u, v, notX1, p2, p3, p4);
    var newR, newS, newK := NextCofactors(f.n, r, s, k, notX1, p2, p3, p4);
    c' := IterationContext(newU, newV, newR, newS, newK);
  }

  method NextPair(u: seq<bool>, v: seq<bool>, notX1: bool, p2: bool, p3: bool, p4: bool)
    returns (newU: seq<bool>, newV: seq<bool>)
    requires |u| == |v| > 0 && Bit(!notX1) + Bit(p2) + Bit(p3) + Bit(p4) == 1
    requires p3 ==> Num(u) >= Num(v)
    requires p4 ==> Num(u) <= Num(v)
    ensures |newU| == |newV| == |u|
    ensures Num(newU) == if !notX1 then Num(u) / 2 else if p3 then Num(u) / 2 - Num(v) / 2 else Num(u)
    ensures Num(newV) == if p2 then Num(v) / 2 else if p4 then Num(v) / 2 - Num(u) / 2 else Num(v)
  {
    hide Num, Pow2;
    var halfU := BigIntAdd.Half(u);
    var halfV := BigIntAdd.Half(v);
    var u3 := BigIntAdd.SubWithoutBorrow(halfU, halfV);
    var v4 := BigIntAdd.SubWithoutBorrow(halfV, halfU);
    newU := MaskedSum(halfU, u, u3, u, notX1, p2, p3, p4);
    newV := MaskedSum(v, halfV, v, v4, notX1, p2, p3, p4);
  }

  method NextCofactors(n: nat, r: seq<bool>, s: seq<bool>, k: seq<bool>, notX1: bool, p2: bool, p3: bool, p4: bool)
    returns (newR: seq<bool>, newS: seq<bool>, newK: seq<bool>)
    requires |r| == |s| == |k| == n > 1 && Bit(!notX1) + Bit(p2) + Bit(p3) + Bit(p4) == 1
    ensures |newR| == |newS| == |newK| == n
    ensures Num(newR) == if !notX1 then Num(r) else if p3 then (Num(r) + Num(s)) % Pow2(n) else 2 * Num(r) % Pow2(n)
    ensures Num(newS) == if p2 then Num(s) else if p4 then (Num(r) + Num(s)) % Pow2(n) else 2 * Num(s) % Pow2(n)
    ensures Num(newK) == (Num(k) + 1) % Pow2(n)
  {
    Pow2Monotone(1, n);
    assert Pow2(1) == 2;
    hide Num, Pow2;
    var doubleR := BigIntAdd.DoubleWithoutOverflow(r);
    var doubleS := BigIntAdd.DoubleWithoutOverflow(s);
    var sumRS := BigIntAdd.AddWithoutCarry(r, s);
    var kPlusOne := BigIntAdd.AddConstantWithoutCarry(k, 1);
    newR := MaskedSum(r, doubleR, sumRS, doubleR, notX1, p2, p3, p4);
    newS := MaskedSum(doubleS, s, doubleS, sumRS, notX1, p2, p3, p4);
    newK := MaskedSum(kPlusOne, kPlusOne, kPlusOne, kPlusOne, notX1, p2, p3, p4);
  }

  /** One round: the next numbers are computed in any case, and taken unless v is one. */
  method IterationStep(f: Params, c: IterationContext) returns (c': IterationContext)
    requires Valid(f) && Wide(c, f.n)
    ensures Wide(c', f.n) && Values(c') == WrappedRound(Values(c), Pow2(f.n))
  {
    var next := NextValues(f, c);
    hide ActiveRound, Num, Valid;
    Bounds(f);
    var vEqualsOne := EqualConstant(c.v, 1);
    var u := Select(c.u, next.u, vEqualsOne);
    var v := Select(c.v, next.v, vEqualsOne);
    var r := Select(c.r, next.r, vEqualsOne);
    var s := Select(c.s, next.s, vEqualsOne);
    var k := Select(c.k, next.k, vEqualsOne);
    c' := IterationContext(u, v, r, s, k);
  }

  // ----- the fixed rounds

  const PER_CHUNK: nat := 4

  function ChunkEnd(start: nat, total: nat): nat {
    if start + PER_CHUNK < total then start + PER_CHUNK else total
  }

  /** What holds after `i` rounds for an odd part coprime to p. */
  ghost predicate AfterRounds(f: Params, odd: nat, x: Nums, i: nat)
    requires f.p > 0
  {
    Balanced(f, odd, x) && Shrinking(f, x) && (x.v != 1 ==> x.k == i + 1)
  }

  method IterationChunk(f: Params, c: IterationContext, start: nat, end: nat, ghost odd: nat, ghost good: bool)
    returns (c': IterationContext)
    requires Valid(f) && Wide(c, f.n) && start <= end
    requires good ==> AfterRounds(f, odd, Values(c), start)
    ensures Wide(c', f.n) && (good ==> AfterRounds(f, odd, Values(c'), end))
  {
    hide Balanced, Shrinking, WrappedRound, Round, Num, Pow2;
    c' := c;
    for i := start to end
      invariant Wide(c', f.n) && (good ==> AfterRounds(f, odd, Values(c'), i))
    {
      if good {
        RoundKeeps(f, odd, Values(c'));
        RoundAtOne(Values(c'));
      }
      c' := IterationStep(f, c');
    }
  }

  lemma RoundAtOne(x: Nums)
    ensures x.v == 1 ==> Round(x) == x
  {
  }

  /** 2n rounds are enough for v to reach one. */
  lemma RoundsSuffice(f: Params, odd: nat, x: Nums)
    requires Valid(f) && AfterRounds(f, odd, x, 2 * f.n)
    ensures x.v == 1 && x.k < f.p && x.k <= 2 * f.n && Cong(f.p, odd * x.s, Pow2(x.k)) && x.s < f.p
  {
    RoundBounds(f, odd, x);
  }

  // ----- dividing out the powers of two

  /** Halving a field element takes one factor of two off what it stands for. */
  lemma HalvingCong(p: nat, a: int, s: int, s': int, k: nat)
    requires p > 0 && p % 2 == 1 && k > 0 && Cong(p, a * s, Pow2(k)) && Cong(p, 2 * s', s)
    ensures Cong(p, a * s', Pow2(k - 1))
  {
    hide Cong;
    CongReflexive(p, a);
    CongTimes(p, a, a, 2 * s', s);
    CongTransitive(p, a * (2 * s'), a * s, Pow2(k));
    assert a * (2 * s') == 2 * (a * s');
    CongIntro(p, 2 * ((p + 1) / 2), 1, 1);
    CongCancel(p, 2, (p + 1) / 2, a * s', Pow2(k - 1));
  }

  /** Halves s as long as the even part is not one; afterwards the even part is accounted for. */
  method DivideByEvenPart(f: Params, s: seq<bool>, even: seq<bool>, ghost a: nat, ghost k: nat, ghost t: nat,
                          ghost good: bool)
    returns (s': seq<bool>)
    requires Valid(f) && |s| == |even| == f.n
    requires good ==> Canonical(f, s) && Num(even) == Pow2(t) && t <= f.n && Cong(f.p, a * Num(s), Pow2(k + t))
    ensures |s'| == f.n
    ensures good ==> Canonical(f, s') && Cong(f.p, a * Num(s'), Pow2(k))
  {
    hide Num, Pow2, Cong, Valid;
    Bounds(f);
    s' := s;
    var e := even;
    ghost var left: nat := t;
    var start := 0;
    while start < f.n
      invariant start <= f.n && |s'| == |e| == f.n
      invariant good ==> Canonical(f, s') && Num(e) == Pow2(left) && Cong(f.p, a * Num(s'), Pow2(k + left))
      invariant good ==> left <= f.n - start
    {
      var end := ChunkEnd(start, f.n);
      for i := start to end
        invariant |s'| == |e| == f.n
        invariant good ==> Canonical(f, s') && Num(e) == Pow2(left) && Cong(f.p, a * Num(s'), Pow2(k + left))
        invariant good ==> left <= f.n - i
      {
        var updatedS := Half(f, s');
        var updatedE := Half(f, e);
        var selector := EqualConstant(e, 1);
        Pow2Parity(left);
        if good && !selector {
          HalvingCong(f.p, a, Num(s'), Num(updatedS), k + left);
          left := left - 1;
        }
        s' := Select(s', updatedS, selector);
        e := Select(e, updatedE, selector);
      }
      start := end;
    }
  }

  lemma Pow2Parity(n: nat)
    ensures Pow2(n) == 1 <==> n == 0
    ensures n > 0 ==> Pow2(n) % 2 == 0 && Pow2(n) == 2 * Pow2(n - 1)
  {
  }

  /** Halves s and counts k down to zero. */
  method DivideByPow2K(f: Params, s: seq<bool>, k: seq<bool>, ghost a: nat, ghost good: bool) returns (s': seq<bool>)
    requires Valid(f) && |s| == |k| == f.n
    requires good ==> Canonical(f, s) && Canonical(f, k) && Num(k) <= 2 * f.n && Cong(f.p, a * Num(s), Pow2(Num(k)))
    ensures |s'| == f.n
    ensures good ==> Canonical(f, s') && Cong(f.p, a * Num(s'), 1)
  {
    hide Num, Pow2, Cong, Valid;
    Bounds(f);
    s' := s;
    var k' := k;
    var start := 0;
    while start < 2 * f.n
      invariant start <= 2 * f.n && |s'| == |k'| == f.n
      invariant good ==> Canonical(f, s') && Canonical(f, k') && Cong(f.p, a * Num(s'), Pow2(Num(k')))
      invariant good ==> Num(k') <= 2 * f.n - start
    {
      var end := ChunkEnd(start, 2 * f.n);
      for i := start to end
        invariant |s'| == |k'| == f.n
        invariant good ==> Canonical(f, s') && Canonical(f, k') && Cong(f.p, a * Num(s'), Pow2(Num(k')))
        invariant good ==> Num(k') <= 2 * f.n - i
      {
        var updatedS := Half(f, s');
        var updatedK := AddConstant(f, k', f.p - 1);
        var selector := EqualConstant(k', 0);
        if good && !selector {
          HalvingCong(f.p, a, Num(s'), Num(updatedS), Num(k'));
        }
        s' := Select(s', updatedS, selector);
        k' := Select(k', updatedK, selector);
      }
      start := end;
    }
    Pow2Parity(0);
  }

  // ----- the inverse

  /** The canonical inverse, for every field element that has one. */
  method InverseOf(f: Params, a: seq<bool>) returns (r: seq<bool>)
    requires Valid(f) && Canonical(f, a)
    ensures |r| == f.n
    ensures Coprime(Num(a), f.p) ==> Canonical(f, r)
    ensures Cong(f.p, Num(a) * Num(r), 1) <==> Coprime(Num(a), f.p)
  {
    hide Num, Pow2, Cong, Valid, Balanced, Shrinking, Coprime;
    Bounds(f);
    var odd, even := BigIntAdd.OddPart(a);
    ghost var good := Coprime(Num(a), f.p);
    ghost var t := 0;
    if good {
      NonzeroIfCoprime(Num(a), f.p);
      t :| 0 <= t < f.n && Num(even) == Pow2(t);
      OddPartCoprime(Num(a), Num(odd), Num(even), f.p);
    }
    var negOdd := Neg(f, odd);
    var u := BigIntAdd.Half(negOdd);
    var one, two := ToBits(1, f.n), ToBits(2, f.n);
    NumToBits(1, f.n);
    NumToBits(2, f.n);
    var c := IterationContext(u, odd, one, two, one);
    if good {
      Start(f, Num(odd), Num(u));
    }
    var start := 0;
    while start < 2 * f.n
      invariant start <= 2 * f.n && Wide(c, f.n)
      invariant good ==> AfterRounds(f, Num(odd), Values(c), start)
    {
      var end := ChunkEnd(start, 2 * f.n);
      c := IterationChunk(f, c, start, end, Num(odd), good);
      start := end;
    }
    if good {
      RoundsSuffice(f, Num(odd), Values(c));
      WithEvenPart(f.p, Num(a), Num(odd), Num(even), Num(c.s), Num(c.k), t);
    }
    var s := DivideByEvenPart(f, c.s, even, Num(a), Num(c.k), t, good);
    r := DivideByPow2K(f, s, c.k, Num(a), good);
    if Cong(f.p, Num(a) * Num(r), 1) {
      InvertibleIsCoprime(Num(a), Num(r), f.p);
    }
  }

  lemma NonzeroIfCoprime(a: nat, p: nat)
    requires p > 1 && Coprime(a, p)
    ensures a > 0
  {
    DividesIntro(p, p, 1);
    if a == 0 {
      DividesIntro(p, a, 0);
    }
  }

  lemma OddPartCoprime(a: nat, odd: nat, even: nat, p: nat)
    requires a == odd * even && Coprime(a, p) && 0 < a < p && odd % 2 == 1
    ensures 0 < odd < p && Coprime(odd, p)
  {
    assert even > 0;
    MulMonotone(1, even, odd);
    forall d: nat | d > 0 && Divides(d, odd) && Divides(d, p)
      ensures d == 1
    {
      DividesCombination(d, odd, p, even, 0);
      assert even * odd + 0 * p == a;
    }
  }

  lemma WithEvenPart(p: nat, a: nat, odd: nat, even: nat, s: nat, k: nat, t: nat)
    requires p > 0 && a == odd * even && even == Pow2(t) && Cong(p, odd * s, Pow2(k))
    ensures Cong(p, a * s, Pow2(k + t))
  {
    hide Cong;
    CongReflexive(p, even);
    CongTimes(p, odd * s, Pow2(k), even, even);
    Pow2Add(k, t);
    assert (odd * s) * even == (odd * even) * s;
  }

  lemma InvertibleIsCoprime(a: nat, r: nat, p: nat)
    requires p > 0 && Cong(p, a * r, 1)
    ensures Coprime(a, p)
  {
    var k := CongWitness(p, a * r, 1);
    forall d: nat | d > 0 && Divides(d, a) && Divides(d, p)
      ensures d == 1
    {
      DividesCombination(d, a, p, r, -k);
      assert r * a + (-k) * p == 1;
      if d > 1 {
        DivModUnique(1, d, 0, 1);
      }
    }
  }

  /** The inverse of a Montgomery form, back in Montgomery form: multiply by the cube of 2^n. */
  method InverseMontgomery(f: Params, a: seq<bool>, ghost v: int, ghost w: int) returns (r: seq<bool>)
    requires Valid(f) && Represents(f, a, v) && Cong(f.p, v * w, 1)
    ensures Represents(f, r, w)
  {
    hide Num, Pow2, Cong, Valid;
    Bounds(f);
    var m := Pow2(f.n);
    var b := InverseOf(f, a);
    var cube := m * m * m % f.p;
    ghost var inv := Pow2Invertible(f);
    UnitCoprime(f.p, Num(a), v, w, m, inv);
    r := MulByConstantMontgomery(f, b, cube);
    CubeCancels(f.p, m, inv, Num(a), v, w, Num(b), cube, Num(r));
  }

  lemma UnitCoprime(p: nat, a: nat, v: int, w: int, m: nat, inv: int)
    requires p > 0 && Cong(p, a, v * m) && Cong(p, v * w, 1) && Cong(p, m * inv, 1)
    ensures Coprime(a, p)
  {
    hide Cong, Coprime;
    CongReflexive(p, w * inv);
    CongTimes(p, a, v * m, w * inv, w * inv);
    CongTimes(p, v * w, 1, m * inv, 1);
    assert (v * m) * (w * inv) == (v * w) * (m * inv);
    CongTransitive(p, a * (w * inv), (v * m) * (w * inv), 1 * 1);
    var y := (w * inv) % p;
    CongMod(p, w * inv);
    CongReflexive(p, a);
    CongTimes(p, a, a, w * inv, y);
    CongSymmetric(p, a * (w * inv), a * y);
    CongTransitive(p, a * y, a * (w * inv), 1);
    InvertibleIsCoprime(a, y, p);
  }

  lemma CubeCancels(p: nat, m: nat, inv: int, a: nat, v: int, w: int, b: nat, cube: nat, r: nat)
    requires p > 0 && Cong(p, m * inv, 1) && Cong(p, a, v * m) && Cong(p, v * w, 1) && Cong(p, a * b, 1)
    requires cube == m * m * m % p && Cong(p, r * m, b * cube)
    ensures Cong(p, r, w * m)
  {
    hide Cong;
    // a * (r * m) is congruent to m^3, and so is a * ((w * m) * m)
    CongMod(p, m * m * m);
    CongSymmetric(p, m * m * m, cube);
    CongReflexive(p, a);
    CongTimes(p, a, a, r * m, b * cube);
    CongTimes(p, a * b, 1, cube, m * m * m);
    assert (a * b) * cube == a * (b * cube) && 1 * (m * m * m) == m * m * m;
    CongTransitive(p, a * (r * m), a * (b * cube), m * m * m);
    CongReflexive(p, (w * m) * m);
    CongTimes(p, a, v * m, (w * m) * m, (w * m) * m);
    CongReflexive(p, m * m * m);
    CongTimes(p, v * w, 1, m * m * m, m * m * m);
    assert (v * m) * ((w * m) * m) == (v * w) * (m * m * m);
    CongTransitive(p, a * ((w * m) * m), (v * m) * ((w * m) * m), m * m * m);
    CongSymmetric(p, a * ((w * m) * m), m * m * m);
    CongTransitive(p, a * (r * m), m * m * m, a * ((w * m) * m));
    CongCancel(p, a, b, r * m, (w * m) * m);
    assert r * m == m * r && (w * m) * m == m * (w * m);
    CongCancel(p, m, inv, r, w * m);
  }
}
