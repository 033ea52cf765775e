/**
 * Evaluation at consecutive points, on scalars and on commitments.
 */
module VsssCore {
  import opened Wrappers
  import opened Bits
  import opened Modular
  import opened Polynomials
  import opened Interpolation
  import opened SignedDigits

  // ----- values that can be shared: scalars, and group elements in the exponent

  /**
   * A cyclic group of order q with its generator's multiples. Scalars are the case where
   * `exp` is reduction modulo q.
   */
  datatype Group<!G> = Group(zero: G, add: (G, G) -> G, sub: (G, G) -> G, mul: (G, nat) -> G)

  ghost predicate Additive<G>(g: Group<G>, exp: int -> G) {
    forall a, b {:trigger g.add(exp(a), exp(b))} :: g.add(exp(a), exp(b)) == exp(a + b)
  }

  ghost predicate Subtractive<G>(g: Group<G>, exp: int -> G) {
    forall a, b {:trigger g.sub(exp(a), exp(b))} :: g.sub(exp(a), exp(b)) == exp(a - b)
  }

  ghost predicate Multiplicative<G>(g: Group<G>, exp: int -> G) {
    forall a, n: nat {:trigger g.mul(exp(a), n)} :: g.mul(exp(a), n) == exp(a * n)
  }

  ghost predicate Injective<G>(exp: int -> G, q: nat)
    requires q > 0
  {
    forall a, b {:trigger Cong(q, a, b)} :: exp(a) == exp(b) <==> Cong(q, a, b)
  }

  /** `exp` sends integers to the multiples of the generator, and is injective modulo q. */
  ghost predicate IsGenerated<G>(g: Group<G>, exp: int -> G, q: nat)
    requires q > 0
  {
    exp(0) == g.zero && Additive(g, exp) && Subtractive(g, exp) && Multiplicative(g, exp) && Injective(exp, q)
  }

  function Reduced(q: nat, a: int): int
    requires q > 0
  {
    a % q
  }

  function Residues(q: nat): int -> int
    requires q > 0
  {
    (a: int) => Reduced(q, a)
  }

  /** The scalar field is such a group. */
  function Scalars(q: nat): Group<int>
    requires q > 0
  {
    Group(0, (a: int, b: int) => Reduced(q, a + b), (a: int, b: int) => Reduced(q, a - b),
          (a: int, n: nat) => Reduced(q, a * n))
  }

  lemma ScalarsGenerated(q: nat)
    requires q > 0
    ensures IsGenerated(Scalars(q), Residues(q), q)
  {
    hide Cong, Additive, Subtractive, Multiplicative, Injective;
    Zero(q);
    ScalarsAdditive(q);
    ScalarsSubtractive(q);
    ScalarsMultiplicative(q);
    ResiduesInjective(q);
  }

  lemma ScalarsAdditive(q: nat)
    requires q > 0
    ensures Additive(Scalars(q), Residues(q))
  {
    hide Reduced;
    forall a, b
      ensures Scalars(q).add(Residues(q)(a), Residues(q)(b)) == Residues(q)(a + b)
    {
      SumResidue(q, a, b);
    }
  }

  lemma ScalarsSubtractive(q: nat)
    requires q > 0
    ensures Subtractive(Scalars(q), Residues(q))
  {
    hide Reduced;
    forall a, b
      ensures Scalars(q).sub(Residues(q)(a), Residues(q)(b)) == Residues(q)(a - b)
    {
      SumResidue(q, a, b);
    }
  }

  lemma ScalarsMultiplicative(q: nat)
    requires q > 0
    ensures Multiplicative(Scalars(q), Residues(q))
  {
    hide Reduced;
    forall a, n: nat
      ensures Scalars(q).mul(Residues(q)(a), n) == Residues(q)(a * n)
    {
      ProductResidue(q, a, n);
    }
  }

  lemma ResiduesInjective(q: nat)
    requires q > 0
    ensures Injective(Residues(q), q)
  {
    hide Reduced, Cong;
    forall a, b
      ensures Residues(q)(a) == Residues(q)(b) <==> Cong(q, a, b)
    {
      SameResidue(q, a, b);
    }
  }

  lemma SumResidue(q: nat, a: int, b: int)
    requires q > 0
    ensures Reduced(q, Reduced(q, a) + Reduced(q, b)) == Reduced(q, a + b)
    ensures Reduced(q, Reduced(q, a) - Reduced(q, b)) == Reduced(q, a - b)
  {
    hide Cong;
    CongMod(q, a);
    var j := CongWitness(q, a, a % q);
    CongMod(q, b);
    var k := CongWitness(q, b, b % q);
    Distribute(q, j, k);
    CongIntro(q, a + b, a % q + b % q, j + k);
    SameResidue(q, a + b, a % q + b % q);
    DistributeMinus(q, j, k);
    CongIntro(q, a - b, a % q - b % q, j - k);
    SameResidue(q, a - b, a % q - b % q);
  }

  lemma ProductResidue(q: nat, a: int, n: nat)
    requires q > 0
    ensures Reduced(q, Reduced(q, a) * n) == Reduced(q, a * n)
  {
    hide Cong;
    CongMod(q, a);
    CongReflexive(q, n);
    CongTimes(q, a, a % q, n, n);
    SameResidue(q, a * n, a % q * n);
  }

  lemma Zero(q: nat)
    requires q > 0
    ensures Reduced(q, 0) == 0
  {
  }

  lemma SameResidue(q: nat, x: int, y: int)
    requires q > 0
    ensures Reduced(q, x) == Reduced(q, y) <==> Cong(q, x, y)
  {
    if x % q == y % q {
      CongMod(q, x);
      CongMod(q, y);
      CongSymmetric(q, y, y % q);
      CongTransitive(q, x, x % q, y);
    }
    if Cong(q, x, y) {
      CongMod(q, x);
      CongSymmetric(q, x, x % q);
      CongTransitive(q, x % q, x, y);
      CongIsMod(q, x % q, y);
    }
  }

  /** From signed digits and a table of doublings of exp(y). */
  method TableMul<G>(g: Group<G>, table: seq<G>, scalar: nat, bitLen: nat, ghost exp: int -> G, ghost q: nat,
                     ghost y: int)
    returns (sum: G)
    requires q > 0 && IsGenerated(g, exp, q) && scalar < Pow2(bitLen) && |table| == bitLen + 1
    requires forall b :: 0 <= b < |table| ==> table[b] == exp(y * Pow2(b))
    ensures sum == exp(y * scalar)
  {
    hide Num, Pow2, SignedNum, Multiplicative, Injective;
    NumToBits(scalar, bitLen);
    var ds := NegPosSumOfPowersOfTwo(ToBits(scalar, bitLen));
    sum := g.zero;
    SignedNone(ds[..0]);
    assert y * SignedNum(ds[..0]) == 0;
    for b := 0 to |ds|
      invariant sum == exp(y * SignedNum(ds[..b]))
    {
      SignedTake(ds, b, y);
      if ds[b] == 1 {
        assert g.add(sum, table[b]) == exp(y * SignedNum(ds[..b]) + y * Pow2(b));
        sum := g.add(sum, table[b]);
      } else if ds[b] == -1 {
        assert g.sub(sum, table[b]) == exp(y * SignedNum(ds[..b]) - y * Pow2(b));
        sum := g.sub(sum, table[b]);
      }
    }
    assert ds[..|ds|] == ds;
  }

  lemma SignedTake(ds: seq<int>, b: nat, y: int)
    requires b < |ds| && IsDigit(ds[b])
    ensures y * SignedNum(ds[..b + 1]) == y * SignedNum(ds[..b]) + ds[b] * (y * Pow2(b))
  {
    assert ds[..b + 1][..b] == ds[..b];
    Distribute(y, SignedNum(ds[..b]), ds[b] * Pow2(b));
    assert y * (ds[b] * Pow2(b)) == ds[b] * (y * Pow2(b));
  }

  lemma DoubledPower<G>(g: Group<G>, exp: int -> G, q: nat, y: int, j: nat)
    requires q > 0 && IsGenerated(g, exp, q) && j > 0
    ensures g.add(exp(y * Pow2(j - 1)), exp(y * Pow2(j - 1))) == exp(y * Pow2(j))
  {
    hide Subtractive, Multiplicative, Injective;
    var z := y * Pow2(j - 1);
    assert y * Pow2(j) == z + z;
    assert g.add(exp(z), exp(z)) == exp(z + z);
  }

  /** The doublings of a value. */
  method DoublingTable<G>(g: Group<G>, value: G, bitLen: nat, ghost exp: int -> G, ghost q: nat, ghost y: int)
    returns (table: seq<G>)
    requires q > 0 && IsGenerated(g, exp, q) && value == exp(y)
    ensures |table| == bitLen + 1
    ensures forall b :: 0 <= b < |table| ==> table[b] == exp(y * Pow2(b))
  {
    assert y * Pow2(0) == y;
    hide IsGenerated, Pow2;
    table := [value];
    for j := 1 to bitLen + 1
      invariant |table| == j
      invariant forall b :: 0 <= b < j ==> table[b] == exp(y * Pow2(b))
    {
      DoubledPower(g, exp, q, y, j);
      var twice := g.add(table[j - 1], table[j - 1]);
      assert twice == exp(y * Pow2(j));
      table := table + [twice];
    }
  }

  // ----- evaluation at suffix points

  /** The weight of a known point, or the product of a later point over the known ones. */
  ghost predicate SuffixCoefficient(q: nat, known: nat, x: nat, c: int)
    requires q > 0
  {
    if x < known then Cong(q, c * ProductBut(Range(known), x, x), 1) else Cong(q, c, DiffProduct(Range(known), x))
  }

  method GetSuffixCoeff(q: nat, known: nat, fact: seq<nat>, invFact: seq<nat>, ghost inv: seq<nat>, x: nat)
    returns (r: nat)
    requires q > 1 && Tables(q, |fact|, fact, invFact, inv) && 1 <= known <= |fact| && x < |fact|
    ensures r < q && SuffixCoefficient(q, known, x, r)
  {
    if x < known {
      r := FullCoeff(q, known, fact, invFact, inv, x, true);
      RangeDistinct(known);
      ProductAtPoint(Range(known), x);
    } else {
      r := fact[x] * invFact[x - known] % q;
      SuffixCoeff(q, DiffProduct(Range(known), x), fact[x], invFact[x - known], Factorial(x), Factorial(x - known), r,
                  known, x);
    }
  }

  lemma RangeDistinct(n: nat)
    ensures Distinct(Range(n))
  {
  }

  lemma SuffixCoeff(q: nat, product: int, f: int, g: int, fx: int, fd: int, r: int, known: nat, x: nat)
    requires q > 0 && known <= x && product == DiffProduct(Range(known), x) && fx == Factorial(x)
    requires fd == Factorial(x - known)
    requires Cong(q, f, fx) && Cong(q, g * fd, 1) && r == f * g % q
    ensures Cong(q, r, product)
  {
    SuffixProduct(known, x);
    hide Cong, Factorial, DiffProduct;
    CongReflexive(q, g);
    CongTimes(q, f, fx, g, g);
    CongReflexive(q, product);
    CongTimes(q, product, product, g * fd, 1);
    assert fx * g == product * (g * fd) by {
      assert fx == product * fd;
    }
    CongTransitive(q, f * g, fx * g, product * 1);
    CongReduce(q, f * g, product);
  }

  /** The scalar of a known point for a later point is its Lagrange basis value. */
  lemma BasisScalar(q: nat, known: nat, i: nat, x: nat, cx: int, w: int, d: int, y: int, s: nat)
    requires q > 0 && i < known <= x && SuffixCoefficient(q, known, x, cx) && Cong(q, d * (x - i), 1)
    requires s == cx * w % q * d % q
    ensures Cong(q, y * s, w * y * ProductBut(Range(known), i, x))
  {
    assert x !in Range(known);
    ProductElsewhere(Range(known), i, x);
    hide Cong, DiffProduct, ProductBut;
    BasisIdentity(q, cx, w, d, x - i, DiffProduct(Range(known), x), ProductBut(Range(known), i, x), y, s);
  }

  lemma BasisIdentity(q: nat, cx: int, w: int, d: int, diff: int, full: int, product: int, y: int, s: int)
    requires q > 0 && Cong(q, cx, full) && full == product * diff && Cong(q, d * diff, 1) && s == cx * w % q * d % q
    ensures Cong(q, y * s, w * y * product)
  {
    hide Cong;
    CongReflexive(q, cx * w);
    CongReduce(q, cx * w, cx * w);
    CongReflexive(q, d);
    CongTimes(q, cx * w % q, cx * w, d, d);
    CongReduce(q, cx * w % q * d, (cx * w) * d);
    CongReflexive(q, y);
    CongTimes(q, y, y, s, (cx * w) * d);
    CongReflexive(q, y * (w * d));
    CongTimes(q, y * (w * d), y * (w * d), cx, full);
    assert y * ((cx * w) * d) == (y * (w * d)) * cx;
    CongTransitive(q, y * s, (y * (w * d)) * cx, (y * (w * d)) * full);
    CongReflexive(q, w * y * product);
    CongTimes(q, w * y * product, w * y * product, d * diff, 1);
    assert (y * (w * d)) * (product * diff) == (w * y * product) * (d * diff);
    CongTransitive(q, y * s, (w * y * product) * (d * diff), w * y * product);
  }

  /** `p` is a polynomial with the given values at 0, 1, 2, ... */
  ghost predicate Extends(q: nat, p: Poly, ys: seq<int>)
    requires q > 0
  {
    |p| <= |ys| && Through(q, p, Range(|ys|), ys)
  }

  /** One term of the sum at a suffix point, by table or directly. */
  method SuffixTerm<G>(g: Group<G>, value: G, table: seq<G>, scalar: nat, bitLen: nat, useTables: bool,
                       ghost exp: int -> G, ghost q: nat, ghost y: int) returns (term: G)
    requires q > 0 && IsGenerated(g, exp, q) && value == exp(y) && scalar < q <= Pow2(bitLen)
    requires useTables ==> |table| == bitLen + 1 && forall b :: 0 <= b < |table| ==> table[b] == exp(y * Pow2(b))
    ensures term == exp(y * scalar)
  {
    if useTables {
      term := TableMul(g, table, scalar, bitLen, exp, q, y);
    } else {
      term := g.mul(value, scalar);
    }
  }

  lemma AddTerm<G>(g: Group<G>, exp: int -> G, q: nat, sum: int, term: int, total: int)
    requires q > 0 && IsGenerated(g, exp, q) && Cong(q, term, total - sum)
    ensures g.add(exp(sum), exp(term)) == exp(total)
  {
    hide Cong, Multiplicative, Subtractive;
    CongReflexive(q, sum);
    CongAdd(q, sum, sum, term, total - sum);
    assert g.add(exp(sum), exp(term)) == exp(sum + term);
  }

  /** The sums so far: point i has been added for the first j suffix points. */
  ghost predicate Sums<G>(exp: int -> G, ws: seq<int>, ys: seq<int>, i: nat, j: nat, result: seq<G>) {
    && |ws| == |ys| && (if j > 0 then i < |ys| else i <= |ys|)
    && forall t :: 0 <= t < |result| ==>
         result[t] == exp(LagrangeSum(Range(|ys|), ws, ys, if t < j then i + 1 else i, |ys| + t))
  }

  lemma StartSums<G>(g: Group<G>, exp: int -> G, q: nat, ws: seq<int>, ys: seq<int>, result: seq<G>)
    requires q > 0 && IsGenerated(g, exp, q) && |ws| == |ys|
    requires forall t :: 0 <= t < |result| ==> result[t] == g.zero
    ensures Sums(exp, ws, ys, 0, 0, result)
  {
  }

  lemma NextSums<G>(exp: int -> G, ws: seq<int>, ys: seq<int>, i: nat, result: seq<G>)
    requires i < |ys| && Sums(exp, ws, ys, i, |result|, result)
    ensures Sums(exp, ws, ys, i + 1, 0, result)
  {
    hide LagrangeSum;
  }

  lemma AddToSums<G>(g: Group<G>, exp: int -> G, q: nat, ws: seq<int>, ys: seq<int>, i: nat, j: nat, result: seq<G>,
                     term: int)
    requires q > 0 && IsGenerated(g, exp, q) && i < |ys| && j < |result| && Sums(exp, ws, ys, i, j, result)
    requires Cong(q, term, ws[i] * ys[i] * ProductBut(Range(|ys|), i, |ys| + j))
    ensures Sums(exp, ws, ys, i, j + 1, result[j := g.add(result[j], exp(term))])
  {
    hide Sums, IsGenerated, Cong, LagrangeSum, ProductBut;
    SumsAt(exp, ws, ys, i, j, result);
    NextSum(g, exp, q, |ys|, ws, ys, i, |ys| + j, term);
    SumsUpdate(exp, ws, ys, i, j, result, g.add(result[j], exp(term)));
  }

  lemma SumsAt<G>(exp: int -> G, ws: seq<int>, ys: seq<int>, i: nat, j: nat, result: seq<G>)
    requires i < |ys| && j < |result| && Sums(exp, ws, ys, i, j, result)
    ensures |ws| == |ys| && result[j] == exp(LagrangeSum(Range(|ys|), ws, ys, i, |ys| + j))
  {
  }

  lemma SumsUpdate<G>(exp: int -> G, ws: seq<int>, ys: seq<int>, i: nat, j: nat, result: seq<G>, v: G)
    requires i < |ys| == |ws| && j < |result| && Sums(exp, ws, ys, i, j, result)
    requires v == exp(LagrangeSum(Range(|ys|), ws, ys, i + 1, |ys| + j))
    ensures Sums(exp, ws, ys, i, j + 1, result[j := v])
  {
    hide LagrangeSum;
  }

  /** Adds the contribution of known point i to all suffix points. */
  method AddContribution<G>(g: Group<G>, value: G, table: seq<G>, i: nat, known: nat, coeffs: seq<nat>, inv: seq<nat>,
                            was: seq<G>, bitLen: nat, useTables: bool, q: nat, ghost exp: int -> G, ghost ys: seq<int>)
    returns (result: seq<G>)
    requires 1 < q <= Pow2(bitLen) && IsGenerated(g, exp, q) && i < known == |ys| && value == exp(ys[i])
    requires useTables ==> |table| == bitLen + 1 && forall b :: 0 <= b < |table| ==> table[b] == exp(ys[i] * Pow2(b))
    requires |coeffs| == |inv| == known + |was|
    requires forall t :: 0 <= t < |coeffs| ==> SuffixCoefficient(q, known, t, coeffs[t])
    requires forall t :: 1 <= t < |inv| ==> Cong(q, inv[t] * t, 1)
    requires Sums(exp, coeffs[..known], ys, i, 0, was)
    ensures |result| == |was| && Sums(exp, coeffs[..known], ys, i + 1, 0, result)
  {
    hide SuffixCoefficient, IsGenerated, Cong, Sums, Pow2;
    result := was;
    for j := 0 to |was|
      invariant |result| == |was| && Sums(exp, coeffs[..known], ys, i, j, result)
    {
      var scalar := coeffs[known + j] * coeffs[i] % q * inv[j + known - i] % q;
      var term := SuffixTerm(g, value, table, scalar, bitLen, useTables, exp, q, ys[i]);
      BasisScalar(q, known, i, known + j, coeffs[known + j], coeffs[i], inv[j + known - i], ys[i], scalar);
      AddToSums(g, exp, q, coeffs[..known], ys, i, j, result, ys[i] * scalar);
      result := result[j := g.add(result[j], term)];
    }
    NextSums(exp, coeffs[..known], ys, i, result);
  }

  /**
   * Evaluation at the next points of the polynomial whose values, or commitments to them, are
   * given at 0, 1, 2, ... The table-driven scalar multiplication makes no difference.
   */
  method EvalAtSuffixPoints<G>(g: Group<G>, values: seq<G>, nPoints: nat, useTables: bool, q: nat, bitLen: nat,
                               ghost exp: int -> G, ghost ys: seq<int>) returns (result: seq<G>)
    requires Prime(q) && 1 <= |values| && |values| + nPoints <= q <= Pow2(bitLen)
    requires IsGenerated(g, exp, q) && |ys| == |values| && forall i :: 0 <= i < |values| ==> values[i] == exp(ys[i])
    ensures |result| == nPoints
    ensures forall p: Poly :: Extends(q, p, ys) ==> forall j :: 0 <= j < nPoints ==>
              result[j] == exp(Eval(p, |values| + j))
  {
    var known := |values|;
    PrimePositive(q);
    var coeffs, inv := SuffixCoefficients(q, known, nPoints);
    SuffixWeights(q, known, coeffs);
    hide Prime, SuffixCoefficient, IsGenerated, Cong, Weights, Extends, Pow2, Sums;
    result := seq(nPoints, j => g.zero);
    StartSums(g, exp, q, coeffs[..known], ys, result);
    for i := 0 to known
      invariant |result| == nPoints && Sums(exp, coeffs[..known], ys, i, 0, result)
    {
      var table := [];
      if useTables {
        table := DoublingTable(g, values[i], bitLen, exp, q, ys[i]);
      }
      result := AddContribution(g, values[i], table, i, known, coeffs, inv, result, bitLen, useTables, q, exp, ys);
    }
    SumsAreValues(g, exp, q, coeffs[..known], ys, result);
  }

  method SuffixCoefficients(q: nat, known: nat, nPoints: nat) returns (coeffs: seq<nat>, inv: seq<nat>)
    requires Prime(q) && 1 <= known && known + nPoints <= q
    ensures |coeffs| == |inv| == known + nPoints
    ensures forall t :: 0 <= t < |coeffs| ==> SuffixCoefficient(q, known, t, coeffs[t])
    ensures forall t :: 1 <= t < |inv| ==> Cong(q, inv[t] * t, 1)
  {
    var n := known + nPoints;
    PrimePositive(q);
    var fact, invFact;
    fact, invFact, inv := PrecalculatedFactorialsAndInverses(q, n);
    TablesInverses(q, n, fact, invFact, inv);
    TablesSize(q, n, fact, invFact, inv);
    hide Prime, Tables, SuffixCoefficient, Cong;
    coeffs := [];
    for x := 0 to n
      invariant |coeffs| == x
      invariant forall t :: 0 <= t < x ==> SuffixCoefficient(q, known, t, coeffs[t])
    {
      var c := GetSuffixCoeff(q, known, fact, invFact, inv, x);
      coeffs := coeffs + [c];
    }
  }

  lemma SumsAreValues<G>(g: Group<G>, exp: int -> G, q: nat, ws: seq<int>, ys: seq<int>, result: seq<G>)
    requires q > 1 && Prime(q) && IsGenerated(g, exp, q) && |ys| <= q && Weights(q, Range(|ys|), ws)
    requires Sums(exp, ws, ys, |ys|, 0, result)
    ensures forall p: Poly :: Extends(q, p, ys) ==> forall j :: 0 <= j < |result| ==>
              result[j] == exp(Eval(p, |ys| + j))
  {
    hide Prime, IsGenerated, Weights, Extends, LagrangeSum, Eval;
    forall p: Poly, j: int | Extends(q, p, ys) && 0 <= j < |result|
      ensures result[j] == exp(Eval(p, |ys| + j))
    {
      SuffixUnique(g, exp, q, p, ws, ys, |ys| + j);
    }
  }

  lemma TablesSize(q: nat, n: nat, fact: seq<nat>, invFact: seq<nat>, inv: seq<nat>)
    requires q > 0 && Tables(q, n, fact, invFact, inv)
    ensures |fact| == n
  {
  }

  lemma NextSum<G>(g: Group<G>, exp: int -> G, q: nat, known: nat, ws: seq<int>, ys: seq<int>, i: nat, x: int,
                   term: int)
    requires q > 0 && IsGenerated(g, exp, q) && |ws| == |ys| == known && i < known
    requires Cong(q, term, ws[i] * ys[i] * ProductBut(Range(known), i, x))
    ensures g.add(exp(LagrangeSum(Range(known), ws, ys, i, x)), exp(term))
         == exp(LagrangeSum(Range(known), ws, ys, i + 1, x))
  {
    hide IsGenerated, Cong;
    AddTerm(g, exp, q, LagrangeSum(Range(known), ws, ys, i, x), term, LagrangeSum(Range(known), ws, ys, i + 1, x));
  }

  lemma SuffixWeights(q: nat, known: nat, coeffs: seq<nat>)
    requires q > 0 && known <= |coeffs|
    requires forall t :: 0 <= t < |coeffs| ==> SuffixCoefficient(q, known, t, coeffs[t])
    ensures Weights(q, Range(known), coeffs[..known])
  {
    hide ProductBut, Cong;
    forall i | 0 <= i < known
      ensures Cong(q, coeffs[..known][i] * ProductBut(Range(known), i, Range(known)[i]), 1)
    {
      assert SuffixCoefficient(q, known, i, coeffs[i]);
    }
  }

  lemma SuffixUnique<G>(g: Group<G>, exp: int -> G, q: nat, p: Poly, ws: seq<int>, ys: seq<int>, x: int)
    requires Prime(q) && IsGenerated(g, exp, q) && |ys| <= q
    requires Weights(q, Range(|ys|), ws) && Extends(q, p, ys)
    ensures |ws| == |ys| && exp(LagrangeSum(Range(|ys|), ws, ys, |ys|, x)) == exp(Eval(p, x))
  {
    RangeDistinct(|ys|);
    PointsApart(q, Range(|ys|));
    hide Cong, Weights, Through, LagrangeSum, Eval, Prime, Apart;
    LagrangeIsUnique(q, p, Range(|ys|), ws, ys, x);
    CongSymmetric(q, Eval(p, x), LagrangeSum(Range(|ys|), ws, ys, |ys|, x));
  }
}
