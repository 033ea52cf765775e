/** Polynomials with coefficients modulo a prime: roots, and the interpolation polynomial. */
module Polynomials {
  import opened Bits
  import opened Modular

  // ----- units modulo a prime

  ghost predicate Prime(q: nat) {
    q > 1 && forall d: nat :: 1 < d < q ==> !Divides(d, q)
  }

  ghost predicate Unit(q: nat, x: int)
    requires q > 0
  {
    exists y :: Cong(q, x * y, 1)
  }

  lemma {:induction false} Bezout(a: nat, b: nat) returns (g: nat, x: int, y: int)
    ensures a * x + b * y == g && (a > 0 || b > 0 ==> g > 0)
    ensures g > 0 ==> Divides(g, a) && Divides(g, b)
    decreases b
  {
    if b == 0 {
      g, x, y := a, 1, 0;
      if a > 0 {
        DividesIntro(a, a, 1);
        DividesIntro(a, b, 0);
      }
    } else {
      var x', y';
      g, x', y' := Bezout(b, a % b);
      x, y := y', x' - a / b * y';
      BezoutBack(a, b, a / b, a % b, x', y');
      DividesCombination(g, b, a % b, a / b, 1);
    }
  }

  lemma BezoutBack(a: nat, b: nat, d: nat, m: nat, x: int, y: int)
    requires a == b * d + m
    ensures a * y + b * (x - d * y) == b * x + m * y
  {
    Distribute(y, b * d, m);
    DistributeMinus(b, x, d * y);
    assert b * (d * y) == y * (b * d);
  }

  /** Numbers strictly between -q and q other than zero are units modulo a prime q. */
  lemma SmallUnit(q: nat, x: int)
    requires Prime(q) && x < q && -x < q && x != 0
    ensures Unit(q, x)
  {
    var n: nat := if x < 0 then -x else x;
    var g, a, b := Bezout(q, n);
    var k := DividesWitness(g, n);
    assert k >= 1 by {
      if k <= 0 {
        MulMonotoneInt(g, k);
      }
    }
    MulMonotone(1, k, g);
    assert g <= n;
    assert g == 1;
    var y := if x < 0 then -b else b;
    assert n * b == x * y;
    CongIntro(q, x * y, 1, -a);
  }

  lemma MulMonotoneInt(g: nat, k: int)
    requires k <= 0
    ensures g * k <= 0
  {
  }

  lemma UnitProduct(q: nat, x: int, y: int)
    requires q > 0 && Unit(q, x) && Unit(q, y)
    ensures Unit(q, x * y)
  {
    var a :| Cong(q, x * a, 1);
    var b :| Cong(q, y * b, 1);
    CongTimes(q, x * a, 1, y * b, 1);
    assert (x * a) * (y * b) == (x * y) * (a * b);
    assert Cong(q, (x * y) * (a * b), 1);
  }

  lemma UnitCancel(q: nat, c: int, x: int, y: int)
    requires q > 0 && Unit(q, c) && Cong(q, c * x, c * y)
    ensures Cong(q, x, y)
  {
    var inv :| Cong(q, c * inv, 1);
    CongCancel(q, c, inv, x, y);
  }

  // ----- polynomials

  /** Coefficients, lowest first. */
  type Poly = seq<int>

  function Eval(p: Poly, x: int): int {
    if |p| == 0 then 0 else p[0] + x * Eval(p[1..], x)
  }

  function Plus(p: Poly, r: Poly): (s: Poly)
    requires |p| == |r|
    ensures |s| == |p|
  {
    seq(|p|, i requires 0 <= i < |p| => p[i] + r[i])
  }

  function Scale(c: int, p: Poly): (s: Poly)
    ensures |s| == |p|
  {
    seq(|p|, i requires 0 <= i < |p| => c * p[i])
  }

  /** p times (X - t). */
  function TimesLinear(p: Poly, t: int): (s: Poly)
    ensures |s| == |p| + 1
  {
    Plus([0] + p, Scale(-t, p) + [0])
  }

  lemma {:induction false} EvalPlus(p: Poly, r: Poly, x: int)
    requires |p| == |r|
    ensures Eval(Plus(p, r), x) == Eval(p, x) + Eval(r, x)
  {
    if |p| > 0 {
      EvalPlus(p[1..], r[1..], x);
      assert Plus(p, r)[1..] == Plus(p[1..], r[1..]);
      Distribute(x, Eval(p[1..], x), Eval(r[1..], x));
    }
  }

  lemma {:induction false} EvalScale(c: int, p: Poly, x: int)
    ensures Eval(Scale(c, p), x) == c * Eval(p, x)
  {
    if |p| > 0 {
      EvalScale(c, p[1..], x);
      assert Scale(c, p)[1..] == Scale(c, p[1..]);
      Distribute(c, p[0], x * Eval(p[1..], x));
      assert x * (c * Eval(p[1..], x)) == c * (x * Eval(p[1..], x));
    }
  }

  lemma {:induction false} EvalPad(p: Poly, x: int)
    ensures Eval(p + [0], x) == Eval(p, x)
  {
    if |p| == 0 {
      assert (p + [0])[1..] == [];
    } else {
      EvalPad(p[1..], x);
      assert (p + [0])[1..] == p[1..] + [0];
    }
  }

  lemma EvalTimesLinear(p: Poly, t: int, x: int)
    ensures Eval(TimesLinear(p, t), x) == (x - t) * Eval(p, x)
  {
    EvalPlus([0] + p, Scale(-t, p) + [0], x);
    EvalPad(Scale(-t, p), x);
    EvalScale(-t, p, x);
    assert ([0] + p)[1..] == p;
    assert (x - t) * Eval(p, x) == x * Eval(p, x) + -t * Eval(p, x) by {
      Distribute(Eval(p, x), x, -t);
    }
  }

  /** The quotient of p by (X - t). */
  function Quotient(p: Poly, t: int): (r: Poly)
    ensures |r| == if |p| == 0 then 0 else |p| - 1
  {
    if |p| <= 1 then [] else [Eval(p[1..], t)] + Quotient(p[1..], t)
  }

  lemma {:induction false} EvalQuotient(p: Poly, t: int, x: int)
    ensures Eval(p, x) == Eval(p, t) + (x - t) * Eval(Quotient(p, t), x)
  {
    if |p| > 1 {
      var p' := p[1..];
      EvalQuotient(p', t, x);
      assert Quotient(p, t)[1..] == Quotient(p', t);
      QuotientIdentity(x, t, Eval(p', x), Eval(p', t), Eval(Quotient(p', t), x));
    } else if |p| == 1 {
      assert Eval(p[1..], x) == 0 && Eval(p[1..], t) == 0;
    }
  }

  lemma QuotientIdentity(x: int, t: int, px: int, pt: int, rx: int)
    requires px == pt + (x - t) * rx
    ensures x * px == t * pt + (x - t) * (pt + x * rx)
  {
    Distribute(x, pt, (x - t) * rx);
    Distribute(x - t, pt, x * rx);
    assert x * ((x - t) * rx) == (x - t) * (x * rx);
    Distribute(pt, x, -t);
  }

  // ----- roots

  /** The points differ pairwise, also modulo q. */
  ghost predicate Apart(q: nat, xs: seq<int>)
    requires q > 0
  {
    forall i, j :: 0 <= i < |xs| && 0 <= j < |xs| && i != j ==> Unit(q, xs[i] - xs[j])
  }

  /** A polynomial with at least as many roots as coefficients vanishes everywhere. */
  lemma {:induction false} RootsVanish(q: nat, p: Poly, xs: seq<int>, x: int)
    requires q > 0 && |p| <= |xs| && Apart(q, xs)
    requires forall i :: 0 <= i < |xs| ==> Cong(q, Eval(p, xs[i]), 0)
    ensures Cong(q, Eval(p, x), 0)
    decreases |p|
  {
    if |p| == 0 {
      CongReflexive(q, 0);
    } else {
      hide Unit, Cong;
      var t, r := xs[0], Quotient(p, xs[0]);
      forall i | 0 <= i < |xs| - 1
        ensures Cong(q, Eval(r, xs[1..][i]), 0)
      {
        var z := xs[i + 1];
        EvalQuotient(p, t, z);
        CongSymmetric(q, Eval(p, t), 0);
        CongDifference(q, Eval(p, z), Eval(p, t), (z - t) * Eval(r, z));
        assert (z - t) * 0 == 0;
        UnitCancel(q, z - t, Eval(r, z), 0);
      }
      forall i, j | 0 <= i < |xs| - 1 && 0 <= j < |xs| - 1 && i != j
        ensures Unit(q, xs[1..][i] - xs[1..][j])
      {
        assert Unit(q, xs[i + 1] - xs[j + 1]);
      }
      RootsVanish(q, r, xs[1..], x);
      EvalQuotient(p, t, x);
      CongReflexive(q, x - t);
      CongTimes(q, x - t, x - t, Eval(r, x), 0);
      CongAdd(q, Eval(p, t), 0, (x - t) * Eval(r, x), (x - t) * 0);
      assert (x - t) * 0 == 0;
    }
  }

  lemma CongDifference(q: nat, a: int, b: int, d: int)
    requires q > 0 && Cong(q, a, 0) && Cong(q, 0, b) && a == b + d
    ensures Cong(q, d, 0)
  {
    hide Cong;
    CongTransitive(q, a, 0, b);
    var k := CongWitness(q, a, b);
    CongIntro(q, d, 0, k);
  }

  // ----- interpolation

  /** The product of (x - xs[j]) over all j but i. */
  function ProductBut(xs: seq<int>, i: int, x: int): int {
    if |xs| == 0 then 1
    else
      var n := |xs| - 1;
      ProductBut(xs[..n], i, x) * if n == i then 1 else x - xs[n]
  }

  /** The polynomial of that product; without factor i it has as many coefficients as points. */
  function BasisBut(xs: seq<int>, i: int): (p: Poly)
    ensures |p| == |xs| + if 0 <= i < |xs| then 0 else 1
  {
    if |xs| == 0 then [1]
    else
      var n := |xs| - 1;
      if n == i then BasisBut(xs[..n], i) else TimesLinear(BasisBut(xs[..n], i), xs[n])
  }

  lemma EvalOne(x: int)
    ensures Eval([1], x) == 1
  {
    assert Eval([1][1..], x) == 0;
  }

  lemma {:induction false} EvalBasis(xs: seq<int>, i: int, x: int)
    ensures Eval(BasisBut(xs, i), x) == ProductBut(xs, i, x)
  {
    hide Eval, TimesLinear;
    if |xs| == 0 {
      EvalOne(x);
    } else {
      var n := |xs| - 1;
      EvalBasis(xs[..n], i, x);
      if n != i {
        EvalTimesLinear(BasisBut(xs[..n], i), xs[n], x);
      }
    }
  }

  lemma {:induction false} ProductButZero(xs: seq<int>, i: int, m: nat)
    requires m < |xs| && m != i
    ensures ProductBut(xs, i, xs[m]) == 0
  {
    var n := |xs| - 1;
    if m < n {
      ProductButZero(xs[..n], i, m);
    }
  }

  lemma {:induction false} ProductButUnit(q: nat, xs: seq<int>, i: int, x: int)
    requires q > 0 && forall j :: 0 <= j < |xs| && j != i ==> Unit(q, x - xs[j])
    ensures Unit(q, ProductBut(xs, i, x))
  {
    hide Cong;
    if |xs| == 0 {
      CongReflexive(q, 1);
      assert Cong(q, 1 * 1, 1);
    } else {
      var n := |xs| - 1;
      ProductButUnit(q, xs[..n], i, x);
      if n != i {
        UnitProduct(q, ProductBut(xs[..n], i, x), x - xs[n]);
      }
    }
  }

  /** The given inverses of the products at the points themselves. */
  ghost predicate Weights(q: nat, xs: seq<int>, ws: seq<int>)
    requires q > 0
  {
    |ws| == |xs| && forall i :: 0 <= i < |xs| ==> Cong(q, ws[i] * ProductBut(xs, i, xs[i]), 1)
  }

  /** The Lagrange form of the interpolation polynomial, first `n` terms, as a polynomial. */
  function Lagrange(xs: seq<int>, ws: seq<int>, ys: seq<int>, n: nat): (p: Poly)
    requires |xs| == |ws| == |ys| && n <= |xs|
    ensures |p| == |xs|
  {
    if n == 0 then seq(|xs|, i => 0)
    else Plus(Lagrange(xs, ws, ys, n - 1), Scale(ws[n - 1] * ys[n - 1], BasisBut(xs, n - 1)))
  }

  /** Its value. */
  function LagrangeSum(xs: seq<int>, ws: seq<int>, ys: seq<int>, n: nat, x: int): int
    requires |xs| == |ws| == |ys| && n <= |xs|
  {
    if n == 0 then 0
    else LagrangeSum(xs, ws, ys, n - 1, x) + ws[n - 1] * ys[n - 1] * ProductBut(xs, n - 1, x)
  }

  lemma {:induction false} EvalZero(n: nat, x: int)
    ensures Eval(seq(n, i => 0), x) == 0
  {
    if n > 0 {
      EvalZero(n - 1, x);
      assert seq(n, i => 0)[1..] == seq(n - 1, i => 0);
    }
  }

  lemma {:induction false} EvalLagrange(xs: seq<int>, ws: seq<int>, ys: seq<int>, n: nat, x: int)
    requires |xs| == |ws| == |ys| && n <= |xs|
    ensures Eval(Lagrange(xs, ws, ys, n), x) == LagrangeSum(xs, ws, ys, n, x)
  {
    hide Eval, ProductBut, BasisBut;
    if n == 0 {
      EvalZero(|xs|, x);
    } else {
      EvalLagrange(xs, ws, ys, n - 1, x);
      var c := ws[n - 1] * ys[n - 1];
      EvalPlus(Lagrange(xs, ws, ys, n - 1), Scale(c, BasisBut(xs, n - 1)), x);
      EvalScale(c, BasisBut(xs, n - 1), x);
      EvalBasis(xs, n - 1, x);
    }
  }

  /** At a point, only its own term is left. */
  lemma {:induction false} LagrangeAtPoint(q: nat, xs: seq<int>, ws: seq<int>, ys: seq<int>, n: nat, m: nat)
    requires q > 0 && Weights(q, xs, ws) && |ys| == |xs| && n <= |xs| && m < |xs|
    ensures Cong(q, LagrangeSum(xs, ws, ys, n, xs[m]), if m < n then ys[m] else 0)
  {
    if n == 0 {
      CongReflexive(q, 0);
    } else {
      hide Cong;
      LagrangeAtPoint(q, xs, ws, ys, n - 1, m);
      var prior := LagrangeSum(xs, ws, ys, n - 1, xs[m]);
      var w, y, product := ws[n - 1], ys[n - 1], ProductBut(xs, n - 1, xs[m]);
      if m == n - 1 {
        CongReflexive(q, y);
        CongTimes(q, y, y, w * product, 1);
        assert y * (w * product) == w * y * product && y * 1 == y;
        CongAdd(q, prior, 0, w * y * product, y);
      } else {
        ProductButZero(xs, n - 1, m);
        assert w * y * product == 0;
      }
    }
  }

  /** `p` goes through the points. */
  ghost predicate Through(q: nat, p: Poly, xs: seq<int>, ys: seq<int>)
    requires q > 0 && |xs| == |ys|
  {
    forall i :: 0 <= i < |xs| ==> Cong(q, Eval(p, xs[i]), ys[i])
  }

  /** The Lagrange polynomial goes through its points. */
  lemma LagrangeThrough(q: nat, xs: seq<int>, ws: seq<int>, ys: seq<int>)
    requires q > 0 && Weights(q, xs, ws) && |ys| == |xs|
    ensures Through(q, Lagrange(xs, ws, ys, |xs|), xs, ys)
  {
    hide Cong, Weights, Eval;
    WeightsLength(q, xs, ws);
    forall i | 0 <= i < |xs|
      ensures Cong(q, Eval(Lagrange(xs, ws, ys, |xs|), xs[i]), ys[i])
    {
      EvalLagrange(xs, ws, ys, |xs|, xs[i]);
      LagrangeAtPoint(q, xs, ws, ys, |xs|, i);
    }
  }

  lemma WeightsLength(q: nat, xs: seq<int>, ws: seq<int>)
    requires q > 0 && Weights(q, xs, ws)
    ensures |ws| == |xs|
  {
  }

  /** Two polynomials with no more coefficients than points agree everywhere if they agree at the points. */
  lemma InterpolationUnique(q: nat, p: Poly, r: Poly, xs: seq<int>, ys: seq<int>, x: int)
    requires q > 0 && Apart(q, xs) && |p| <= |xs| && |r| == |xs| == |ys|
    requires Through(q, p, xs, ys) && Through(q, r, xs, ys)
    ensures Cong(q, Eval(p, x), Eval(r, x))
  {
    hide Cong, Apart;
    var padded := Padded(p, |xs|);
    var d := Plus(padded, Scale(-1, r));
    forall z
      ensures Eval(d, z) == Eval(p, z) - Eval(r, z)
    {
      EvalPadded(p, |xs|, z);
      EvalPlus(padded, Scale(-1, r), z);
      EvalScale(-1, r, z);
    }
    forall i | 0 <= i < |xs|
      ensures Cong(q, Eval(d, xs[i]), 0)
    {
      CongSymmetric(q, Eval(r, xs[i]), ys[i]);
      CongTransitive(q, Eval(p, xs[i]), ys[i], Eval(r, xs[i]));
      CongZero(q, Eval(p, xs[i]), Eval(r, xs[i]));
    }
    RootsVanish(q, d, xs, x);
    CongZero(q, Eval(p, x), Eval(r, x));
  }

  lemma CongZero(q: nat, x: int, y: int)
    requires q > 0
    ensures Cong(q, x, y) <==> Cong(q, x - y, 0)
  {
  }

  function Padded(p: Poly, n: nat): (r: Poly)
    requires |p| <= n
    ensures |r| == n
    decreases n
  {
    if |p| == n then p else Padded(p, n - 1) + [0]
  }

  lemma {:induction false} EvalPadded(p: Poly, n: nat, x: int)
    requires |p| <= n
    ensures Eval(Padded(p, n), x) == Eval(p, x)
    decreases n
  {
    if |p| < n {
      EvalPadded(p, n - 1, x);
      EvalPad(Padded(p, n - 1), x);
    }
  }

  /** Any polynomial through the points has the Lagrange sum as its value everywhere. */
  lemma LagrangeIsUnique(q: nat, p: Poly, xs: seq<int>, ws: seq<int>, ys: seq<int>, x: int)
    requires q > 0 && Apart(q, xs) && Weights(q, xs, ws) && |ys| == |xs| && |p| <= |xs| && Through(q, p, xs, ys)
    ensures |ws| == |xs| && Cong(q, Eval(p, x), LagrangeSum(xs, ws, ys, |xs|, x))
  {
    hide Cong, Apart, Through;
    LagrangeThrough(q, xs, ws, ys);
    InterpolationUnique(q, p, Lagrange(xs, ws, ys, |xs|), xs, ys, x);
    EvalLagrange(xs, ws, ys, |xs|, x);
  }
}
