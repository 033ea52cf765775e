/** Interpolation over consecutive points by factorials, in the field modulo a prime q. */
module Interpolation {
  import opened Wrappers
  import opened Bits
  import opened Modular
  import opened Polynomials
  import Montgomery

  // ----- factorials

  function Factorial(n: nat): nat {
    if n == 0 then 1 else n * Factorial(n - 1)
  }

  method FieldInverse(q: nat, x: nat) returns (y: nat)
    requires q > 0 && Unit(q, x)
    ensures y < q && Cong(q, x * y, 1)
  {
    hide Cong;
    var g, a, b := Montgomery.ExtendedGcd(x, q);
    UnitGcd(q, x, g);
    y := a % q;
    CongMod(q, a);
    CongReflexive(q, x);
    CongTimes(q, x, x, a, y);
    CongSymmetric(q, x * a, x * y);
    CongIntro(q, x * a, 1, -b);
    CongTransitive(q, x * y, x * a, 1);
  }

  lemma UnitGcd(q: nat, x: nat, g: int)
    requires q > 0 && Unit(q, x) && g >= 0 && Montgomery.SameDivisors(x, q, g, 0)
    ensures g == 1
  {
    var y :| Cong(q, x * y, 1);
    var k := CongWitness(q, x * y, 1);
    forall d: nat | d > 0 && Divides(d, x) && Divides(d, q)
      ensures d == 1
    {
      DividesCombination(d, x, q, y, -k);
      assert y * x + -k * q == 1;
      if d > 1 {
        DivModUnique(1, d, 0, 1);
      }
    }
    Montgomery.GcdOne(x, q, g);
  }

  lemma {:induction false} FactorialUnit(q: nat, n: nat)
    requires Prime(q) && n < q
    ensures Unit(q, Factorial(n))
  {
    hide Unit;
    if n == 0 {
      SmallUnit(q, 1);
    } else {
      FactorialUnit(q, n - 1);
      SmallUnit(q, n);
      UnitProduct(q, n, Factorial(n - 1));
    }
  }

  /** What the three tables hold. */
  ghost predicate Tables(q: nat, n: nat, fact: seq<nat>, invFact: seq<nat>, inv: seq<nat>)
    requires q > 0
  {
    && |fact| == |invFact| == |inv| == n
    && (forall i :: 0 <= i < n ==> Cong(q, fact[i], Factorial(i)) && Cong(q, invFact[i] * Factorial(i), 1))
    && (forall i :: 1 <= i < n ==> Cong(q, inv[i] * i, 1))
  }

  lemma CongReduce(q: nat, x: int, y: int)
    requires q > 0 && Cong(q, x, y)
    ensures Cong(q, x % q, y)
  {
    hide Cong;
    CongMod(q, x);
    CongSymmetric(q, x, x % q);
    CongTransitive(q, x % q, x, y);
  }

  method Factorials(q: nat, n: nat) returns (fact: seq<nat>)
    requires q > 1 && n >= 1
    ensures |fact| == n && forall i :: 0 <= i < n ==> Cong(q, fact[i], Factorial(i))
  {
    hide Cong;
    fact := [1];
    CongReflexive(q, 1);
    for i := 1 to n
      invariant |fact| == i && forall j :: 0 <= j < i ==> Cong(q, fact[j], Factorial(j))
    {
      CongReflexive(q, i);
      CongTimes(q, i, i, fact[i - 1], Factorial(i - 1));
      CongReduce(q, i * fact[i - 1], Factorial(i));
      fact := fact + [i * fact[i - 1] % q];
    }
  }

  /** From the inverse of the last factorial down. */
  method InverseFactorials(q: nat, n: nat, last: nat) returns (invFact: seq<nat>)
    requires q > 0 && n >= 1 && Cong(q, last * Factorial(n - 1), 1)
    ensures |invFact| == n && forall i :: 0 <= i < n ==> Cong(q, invFact[i] * Factorial(i), 1)
  {
    hide Cong, Factorial;
    invFact := [last];
    ghost var low: nat := n - 1;
    for i := 1 to n
      invariant |invFact| == i && low == n - i
      invariant forall j: nat :: low <= j < n ==> Cong(q, invFact[j - low] * Factorial(j), 1)
    {
      var x := invFact[0] * (n - i) % q;
      CongMod(q, invFact[0] * (n - i));
      InverseDown(q, low, invFact[0], x);
      invFact := [x] + invFact;
      low := low - 1;
    }
  }

  method Inverses(q: nat, n: nat, fact: seq<nat>, invFact: seq<nat>) returns (inv: seq<nat>)
    requires q > 0 && |fact| == |invFact| == n
    requires forall i :: 0 <= i < n ==> Cong(q, fact[i], Factorial(i)) && Cong(q, invFact[i] * Factorial(i), 1)
    ensures |inv| == n && forall i :: 1 <= i < n ==> Cong(q, inv[i] * i, 1)
  {
    hide Cong, Factorial;
    inv := [];
    for i := 0 to n
      invariant |inv| == i && forall j :: 1 <= j < i ==> Cong(q, inv[j] * j, 1)
    {
      if i == 0 {
        inv := [0];
      } else {
        var x := invFact[i] * fact[i - 1] % q;
        CongMod(q, invFact[i] * fact[i - 1]);
        InverseOne(q, i, invFact[i], fact[i - 1], x);
        inv := inv + [x];
      }
    }
  }

  /** Factorials, their inverses, and the inverses of 1 .. n - 1, with a single field inversion. */
  method PrecalculatedFactorialsAndInverses(q: nat, n: nat) returns (fact: seq<nat>, invFact: seq<nat>, inv: seq<nat>)
    requires Prime(q) && 1 <= n <= q
    ensures Tables(q, n, fact, invFact, inv)
  {
    hide Cong, Prime, Unit;
    PrimePositive(q);
    fact := Factorials(q, n);
    FactorialUnit(q, n - 1);
    UnitCong(q, Factorial(n - 1), fact[n - 1]);
    var last := FieldInverse(q, fact[n - 1]);
    InverseCong(q, Factorial(n - 1), fact[n - 1], last);
    invFact := InverseFactorials(q, n, last);
    inv := Inverses(q, n, fact, invFact);
  }

  lemma PrimePositive(q: nat)
    requires Prime(q)
    ensures q > 1
  {
  }

  lemma UnitCong(q: nat, x: int, y: int)
    requires q > 0 && Unit(q, x) && Cong(q, y, x)
    ensures Unit(q, y)
  {
    var z :| Cong(q, x * z, 1);
    CongReflexive(q, z);
    CongTimes(q, y, x, z, z);
    CongTransitive(q, y * z, x * z, 1);
  }

  lemma InverseCong(q: nat, x: int, x': int, y: int)
    requires q > 0 && Cong(q, x', x) && Cong(q, x' * y, 1)
    ensures Cong(q, y * x, 1)
  {
    hide Cong;
    CongReflexive(q, y);
    CongTimes(q, y, y, x', x);
    assert y * x' == x' * y;
    CongSymmetric(q, y * x', y * x);
    CongTransitive(q, y * x, x' * y, 1);
  }

  lemma InverseDown(q: nat, i: nat, y: int, x: int)
    requires q > 0 && i > 0 && Cong(q, y * Factorial(i), 1) && Cong(q, y * i, x)
    ensures Cong(q, x * Factorial(i - 1), 1)
  {
    hide Cong;
    CongReflexive(q, Factorial(i - 1));
    CongTimes(q, y * i, x, Factorial(i - 1), Factorial(i - 1));
    assert (y * i) * Factorial(i - 1) == y * Factorial(i);
    CongSymmetric(q, y * Factorial(i), x * Factorial(i - 1));
    CongTransitive(q, x * Factorial(i - 1), y * Factorial(i), 1);
  }

  lemma InverseOne(q: nat, i: nat, y: int, f: int, x: int)
    requires q > 0 && i > 0 && Cong(q, y * Factorial(i), 1) && Cong(q, f, Factorial(i - 1)) && Cong(q, y * f, x)
    ensures Cong(q, x * i, 1)
  {
    hide Cong;
    CongReflexive(q, y * i);
    CongTimes(q, y * i, y * i, f, Factorial(i - 1));
    assert (y * i) * Factorial(i - 1) == y * Factorial(i) && (y * i) * f == (y * f) * i;
    CongTransitive(q, (y * f) * i, y * Factorial(i), 1);
    CongReflexive(q, i);
    CongTimes(q, y * f, x, i, i);
    CongSymmetric(q, (y * f) * i, x * i);
    CongTransitive(q, x * i, (y * f) * i, 1);
  }

  // ----- products of differences

  /** The product of x - e over the elements e of s other than x. */
  function DiffProduct(s: seq<int>, x: int): int {
    if |s| == 0 then 1
    else
      var n := |s| - 1;
      DiffProduct(s[..n], x) * if s[n] == x then 1 else x - s[n]
  }

  function Range(n: nat): (r: seq<int>)
    ensures |r| == n && forall i :: 0 <= i < n ==> r[i] == i
  {
    seq(n, i requires 0 <= i < n => i)
  }

  lemma {:induction false} DiffProductConcat(a: seq<int>, b: seq<int>, x: int)
    ensures DiffProduct(a + b, x) == DiffProduct(a, x) * DiffProduct(b, x)
  {
    if |b| == 0 {
      assert a + b == a;
    } else {
      var n := |b| - 1;
      DiffProductConcat(a, b[..n], x);
      assert (a + b)[..|a| + n] == a + b[..n];
      Associate(DiffProduct(a, x), DiffProduct(b[..n], x), if b[n] == x then 1 else x - b[n]);
    }
  }

  lemma Associate(x: int, y: int, z: int)
    ensures (x * y) * z == x * (y * z)
  {
  }

  lemma DiffProductPush(s: seq<int>, e: int, x: int)
    ensures DiffProduct(s + [e], x) == DiffProduct(s, x) * if e == x then 1 else x - e
  {
    assert (s + [e])[..|s|] == s;
  }

  lemma WithoutMultiset(t: seq<int>, k: nat)
    requires k < |t|
    ensures multiset(Without(t, k)) == multiset(t) - multiset{t[k]}
  {
    assert t == t[..k] + [t[k]] + t[k + 1..];
  }

  lemma WithoutProduct(t: seq<int>, k: nat, x: int)
    requires k < |t|
    ensures DiffProduct(t, x) == DiffProduct(Without(t, k), x) * if t[k] == x then 1 else x - t[k]
  {
    hide DiffProduct;
    assert t == t[..k] + [t[k]] + t[k + 1..];
    MoveToEnd(t[..k], t[k], t[k + 1..], x);
  }

  /** The order does not matter. */
  lemma {:induction false} DiffProductPermuted(s: seq<int>, t: seq<int>, x: int)
    requires multiset(s) == multiset(t)
    ensures DiffProduct(s, x) == DiffProduct(t, x)
    decreases |s|
  {
    assert |s| == |multiset(s)| == |multiset(t)| == |t|;
    if |s| == 0 {
      assert s == t;
    } else {
      hide DiffProduct, Without;
      assert s[0] in multiset(t);
      var k :| 0 <= k < |t| && t[k] == s[0];
      WithoutMultiset(s, 0);
      WithoutMultiset(t, k);
      WithoutSize(s, 0);
      DiffProductPermuted(Without(s, 0), Without(t, k), x);
      WithoutProduct(s, 0, x);
      WithoutProduct(t, k, x);
    }
  }

  lemma WithoutSize(t: seq<int>, k: nat)
    requires k < |t|
    ensures |Without(t, k)| == |t| - 1
  {
  }

  lemma MoveToEnd(a: seq<int>, e: int, b: seq<int>, x: int)
    ensures DiffProduct(a + [e] + b, x) == DiffProduct(a + b, x) * if e == x then 1 else x - e
  {
    hide DiffProduct;
    DiffProductConcat(a + [e], b, x);
    DiffProductPush(a, e, x);
    DiffProductConcat(a, b, x);
    var p, r, d := DiffProduct(a, x), DiffProduct(b, x), if e == x then 1 else x - e;
    assert (p * d) * r == (p * r) * d;
  }

  /** The points are 0 .. n - 1 in some order. */
  ghost predicate Partition(points: seq<int>) {
    Distinct(points) && forall v :: v in points <==> 0 <= v < |points|
  }

  lemma {:induction false} DistinctCount(s: seq<int>, v: int)
    requires Distinct(s)
    ensures multiset(s)[v] == if v in s then 1 else 0
  {
    if |s| > 0 {
      var n := |s| - 1;
      assert s == s[..n] + [s[n]];
      DistinctCount(s[..n], v);
    }
  }

  lemma PartitionIsRange(points: seq<int>)
    requires Partition(points)
    ensures multiset(points) == multiset(Range(|points|))
  {
    forall v
      ensures multiset(points)[v] == multiset(Range(|points|))[v]
    {
      DistinctCount(points, v);
      DistinctCount(Range(|points|), v);
      assert v in Range(|points|) <==> 0 <= v < |points| by {
        if 0 <= v < |points| {
          assert Range(|points|)[v] == v;
        }
      }
    }
  }

  function Sign(n: int): int {
    if n % 2 == 0 then 1 else -1
  }

  lemma RangePush(n: nat, x: int)
    ensures DiffProduct(Range(n + 1), x) == DiffProduct(Range(n), x) * if n == x then 1 else x - n
  {
    assert Range(n + 1) == Range(n) + [n];
    DiffProductPush(Range(n), n, x);
  }

  /** The product over 0 .. n - 1 from its factorials: x of the factors are positive. */
  lemma {:induction false} RangeProduct(n: nat, x: nat)
    requires x < n
    ensures DiffProduct(Range(n), x) == Sign(n - 1 - x) * (Factorial(x) * Factorial(n - 1 - x))
  {
    hide DiffProduct;
    RangePush(n - 1, x);
    if x == n - 1 {
      SuffixProduct(n - 1, x);
      assert Factorial(0) == 1 && Sign(0) == 1;
    } else {
      RangeProduct(n - 1, x);
      FactorialStep(n - 1 - x);
      hide Factorial, Sign;
      FlipSign(Sign(n - 2 - x), Factorial(x), Factorial(n - 2 - x), n - 1 - x);
    }
  }

  lemma FactorialStep(n: nat)
    requires n > 0
    ensures Factorial(n) == n * Factorial(n - 1) && Sign(n) == -Sign(n - 1)
  {
  }

  lemma FlipSign(s: int, f: int, g: int, d: int)
    ensures (s * (f * g)) * -d == -s * (f * (d * g))
  {
    assert f * (d * g) == d * (f * g);
    assert (s * (f * g)) * -d == -(s * (f * g) * d) == -(s * (d * (f * g)));
  }

  /** The product over points that are all below x. */
  lemma {:induction false} SuffixProduct(n: nat, x: nat)
    requires n <= x
    ensures DiffProduct(Range(n), x) * Factorial(x - n) == Factorial(x)
  {
    if n > 0 {
      hide DiffProduct;
      RangePush(n - 1, x);
      SuffixProduct(n - 1, x);
      assert Factorial(x - (n - 1)) == (x - (n - 1)) * Factorial(x - n);
      hide Factorial;
      Associate(DiffProduct(Range(n - 1), x), x - (n - 1), Factorial(x - n));
    } else {
      assert DiffProduct(Range(0), x) == 1;
    }
  }

  /** For distinct points the product that leaves out index i leaves out the point. */
  lemma {:induction false} ProductAtPoint(xs: seq<int>, i: nat)
    requires Distinct(xs) && i < |xs|
    ensures ProductBut(xs, i, xs[i]) == DiffProduct(xs, xs[i])
  {
    ProductAvoids(xs, i, xs[i]);
  }

  lemma {:induction false} ProductAvoids(xs: seq<int>, i: nat, x: int)
    requires forall j :: 0 <= j < |xs| ==> (xs[j] == x <==> j == i)
    ensures ProductBut(xs, i, x) == DiffProduct(xs, x)
  {
    if |xs| > 0 {
      ProductAvoids(xs[..|xs| - 1], i, x);
    }
  }

  lemma {:induction false} ProductElsewhere(xs: seq<int>, i: int, x: int)
    requires x !in xs
    ensures DiffProduct(xs, x) == ProductBut(xs, i, x) * if 0 <= i < |xs| then x - xs[i] else 1
  {
    if |xs| > 0 {
      var n := |xs| - 1;
      ProductElsewhere(xs[..n], i, x);
      if 0 <= i < n {
        var p := ProductBut(xs[..n], i, x);
        assert (p * (x - xs[i])) * (x - xs[n]) == (p * (x - xs[n])) * (x - xs[i]);
      }
    }
  }

  lemma {:induction false} DiffProductUnit(q: nat, s: seq<int>, x: int)
    requires Prime(q) && forall j :: 0 <= j < |s| ==> x - s[j] < q && s[j] - x < q
    ensures Unit(q, DiffProduct(s, x))
  {
    hide Unit;
    if |s| == 0 {
      SmallUnit(q, 1);
    } else {
      var n := |s| - 1;
      DiffProductUnit(q, s[..n], x);
      if s[n] != x {
        SmallUnit(q, x - s[n]);
        UnitProduct(q, DiffProduct(s[..n], x), x - s[n]);
      }
    }
  }

  // ----- the coefficients

  /** In the given direction: times the full product is one, or is the full product. */
  ghost predicate FullCoefficient(q: nat, r: int, full: int, isInverse: bool)
    requires q > 0
  {
    if isInverse then Cong(q, r * full, 1) else Cong(q, r, full)
  }

  /** Two factorials or their inverses, with the sign. */
  method FullCoeff(q: nat, n: nat, fact: seq<nat>, invFact: seq<nat>, ghost inv: seq<nat>, x: nat, isInverse: bool)
    returns (r: nat)
    requires q > 1 && Tables(q, |fact|, fact, invFact, inv) && x < n <= |fact|
    ensures r < q && FullCoefficient(q, r, DiffProduct(Range(n), x), isInverse)
  {
    RangeProduct(n, x);
    hide Cong, Factorial, DiffProduct;
    var s, t := if isInverse then invFact[x] else fact[x], if isInverse then invFact[n - 1 - x] else fact[n - 1 - x];
    r := s * t % q;
    CongMod(q, s * t);
    CongSymmetric(q, s * t, r);
    if (n - x) % 2 == 0 {
      CongMod(q, -1 * r);
      CongSymmetric(q, -1 * r, -1 * r % q);
      CongReflexive(q, -1);
      CongTimes(q, -1, -1, r, s * t);
      CongTransitive(q, -1 * r % q, -1 * r, -1 * (s * t));
      r := -1 * r % q;
    }
    var sign := Sign(n - 1 - x);
    assert 1 * (s * t) == s * t;
    assert Cong(q, r, sign * (s * t));
    if isInverse {
      TwoInverses(q, s, Factorial(x), t, Factorial(n - 1 - x), sign, r);
    } else {
      TwoFactorials(q, s, Factorial(x), t, Factorial(n - 1 - x), sign, r);
    }
  }

  lemma TwoFactorials(q: nat, s: int, f: int, t: int, g: int, sign: int, r: int)
    requires q > 0 && Cong(q, s, f) && Cong(q, t, g) && Cong(q, r, sign * (s * t))
    ensures Cong(q, r, sign * (f * g))
  {
    hide Cong;
    CongTimes(q, s, f, t, g);
    CongReflexive(q, sign);
    CongTimes(q, sign, sign, s * t, f * g);
    CongTransitive(q, r, sign * (s * t), sign * (f * g));
  }

  lemma TwoInverses(q: nat, s: int, f: int, t: int, g: int, sign: int, r: int)
    requires q > 0 && Cong(q, s * f, 1) && Cong(q, t * g, 1) && Cong(q, r, sign * (s * t)) && sign * sign == 1
    ensures Cong(q, r * (sign * (f * g)), 1)
  {
    hide Cong;
    CongTimes(q, s * f, 1, t * g, 1);
    CongReflexive(q, sign * (f * g));
    CongTimes(q, r, sign * (s * t), sign * (f * g), sign * (f * g));
    assert (sign * (s * t)) * (sign * (f * g)) == (s * f) * (t * g) by {
      assert (sign * (s * t)) * (sign * (f * g)) == (sign * sign) * ((s * t) * (f * g));
      assert (s * t) * (f * g) == (s * f) * (t * g);
    }
    CongTransitive(q, r * (sign * (f * g)), (s * f) * (t * g), 1);
  }

  /** After some missing points: their factors are multiplied in, or divided out. */
  ghost predicate PartialCoefficient(q: nat, r: int, full: int, part: int, isInverse: bool)
    requires q > 0
  {
    if isInverse then exists c :: Cong(q, c * full, 1) && Cong(q, r, c * part)
    else Cong(q, r * part, full)
  }

  /** The coefficient of point x: for a known point the inverse of its product over the other known points. */
  method GetCoeff(q: nat, n: nat, fact: seq<nat>, invFact: seq<nat>, inv: seq<nat>, missing: seq<nat>, x: nat,
                  isInverse: bool)
    returns (r: nat)
    requires q > 1 && Tables(q, n, fact, invFact, inv) && x < n
    requires forall j :: 0 <= j < |missing| ==> missing[j] < n
    ensures r < q && PartialCoefficient(q, r, DiffProduct(Range(n), x), DiffProduct(missing, x), isInverse)
  {
    ghost var full := DiffProduct(Range(n), x);
    r := FullCoeff(q, n, fact, invFact, inv, x, isInverse);
    ghost var c := r;
    assert DiffProduct(missing[..0], x) == 1 && c * 1 == c;
    CongReflexive(q, c);
    for t := 0 to |missing|
      invariant r < q
      invariant if isInverse then Cong(q, c * full, 1) && Cong(q, r, c * DiffProduct(missing[..t], x))
                else Cong(q, r * DiffProduct(missing[..t], x), full)
    {
      hide Cong, DiffProduct, Range;
      var i := missing[t];
      assert missing[..t + 1] == missing[..t] + [i];
      DiffProductPush(missing[..t], i, x);
      if i != x {
        var factor := if isInverse then (x - i) % q else if i < x then inv[x - i] else -inv[i - x] % q;
        if isInverse {
          FactorIn(q, r, c, DiffProduct(missing[..t], x), x - i, r * factor % q);
        } else {
          InverseDifference(q, n, inv, x, i);
          FactorOut(q, r, full, DiffProduct(missing[..t], x), x - i, factor, r * factor % q);
        }
        r := r * factor % q;
      }
    }
    assert missing[..|missing|] == missing;
  }

  /** The table gives the inverse of every nonzero difference. */
  lemma InverseDifference(q: nat, n: nat, inv: seq<nat>, x: nat, i: nat)
    requires q > 0 && |inv| == n && x < n && i < n && x != i
    requires forall j :: 1 <= j < n ==> Cong(q, inv[j] * j, 1)
    ensures Cong(q, (if i < x then inv[x - i] else -inv[i - x] % q) * (x - i), 1)
  {
    hide Cong;
    if i > x {
      var y: int := inv[i - x];
      assert Cong(q, y * (i - x), 1);
      CongMod(q, -y);
      CongReflexive(q, x - i);
      CongTimes(q, -y, -y % q, x - i, x - i);
      assert -y * (x - i) == y * (i - x);
      CongSymmetric(q, -y * (x - i), -y % q * (x - i));
      CongTransitive(q, -y % q * (x - i), y * (i - x), 1);
    }
  }

  lemma FactorIn(q: nat, r: int, c: int, part: int, d: int, r': int)
    requires q > 0 && Cong(q, r, c * part) && r' == r * (d % q) % q
    ensures Cong(q, r', c * (part * d))
  {
    hide Cong;
    CongMod(q, d);
    CongSymmetric(q, d, d % q);
    CongTimes(q, r, c * part, d % q, d);
    CongReduce(q, r * (d % q), (c * part) * d);
    Associate(c, part, d);
  }

  lemma FactorOut(q: nat, r: int, full: int, part: int, d: int, factor: int, r': int)
    requires q > 0 && Cong(q, r * part, full) && Cong(q, factor * d, 1) && r' == r * factor % q
    ensures Cong(q, r' * (part * d), full)
  {
    hide Cong;
    CongMod(q, r * factor);
    CongSymmetric(q, r * factor, r');
    CongReflexive(q, part * d);
    CongTimes(q, r', r * factor, part * d, part * d);
    CongTimes(q, r * part, full, factor * d, 1);
    assert (r * factor) * (part * d) == (r * part) * (factor * d) && full * 1 == full;
    CongTransitive(q, r' * (part * d), (r * part) * (factor * d), full);
  }

  // ----- interpolation

  type Share = (nat, nat)

  function Xs<T>(points: seq<(nat, T)>): (r: seq<int>)
    ensures |r| == |points| && forall i :: 0 <= i < |points| ==> r[i] == points[i].0
  {
    seq<int>(|points|, i requires 0 <= i < |points| => points[i].0)
  }

  function Ys(points: seq<Share>): (r: seq<int>)
    ensures |r| == |points| && forall i :: 0 <= i < |points| ==> r[i] == points[i].1
  {
    seq<int>(|points|, i requires 0 <= i < |points| => points[i].1)
  }

  /** The known and the missing points together are 0 .. n - 1. */
  ghost predicate Complementary(known: seq<int>, missing: seq<int>) {
    Partition(known + missing)
  }

  lemma ComplementProducts(known: seq<int>, missing: seq<int>, x: int)
    requires Complementary(known, missing)
    ensures DiffProduct(Range(|known| + |missing|), x) == DiffProduct(known, x) * DiffProduct(missing, x)
  {
    PartitionIsRange(known + missing);
    DiffProductPermuted(known + missing, Range(|known| + |missing|), x);
    DiffProductConcat(known, missing, x);
  }

  lemma ComplementElements(known: seq<int>, missing: seq<int>)
    requires Complementary(known, missing)
    ensures Distinct(known) && Distinct(missing)
    ensures forall i :: 0 <= i < |known| ==> 0 <= known[i] < |known| + |missing| && known[i] !in missing
    ensures forall j :: 0 <= j < |missing| ==> 0 <= missing[j] < |known| + |missing| && missing[j] !in known
  {
    var s := known + missing;
    forall i, j | 0 <= i < j < |missing|
      ensures missing[i] != missing[j]
    {
      assert s[|known| + i] != s[|known| + j];
    }
    forall i, j | 0 <= i < j < |known|
      ensures known[i] != known[j]
    {
      assert s[i] != s[j];
    }
    forall i, j | 0 <= i < |known| && 0 <= j < |missing|
      ensures known[i] != missing[j]
    {
      assert s[i] != s[|known| + j];
    }
    assert forall i :: 0 <= i < |known| ==> s[i] == known[i] && s[i] in s;
    assert forall j :: 0 <= j < |missing| ==> s[|known| + j] == missing[j] && s[|known| + j] in s;
  }

  lemma KnownWeight(q: nat, xs: seq<int>, missing: seq<int>, i: nat, w: int)
    requires q > 0 && Complementary(xs, missing) && i < |xs|
    requires PartialCoefficient(q, w, DiffProduct(Range(|xs| + |missing|), xs[i]), DiffProduct(missing, xs[i]), true)
    ensures Cong(q, w * ProductBut(xs, i, xs[i]), 1)
  {
    ComplementElements(xs, missing);
    ComplementProducts(xs, missing, xs[i]);
    ProductAtPoint(xs, i);
    var full := DiffProduct(Range(|xs| + |missing|), xs[i]);
    var c :| Cong(q, c * full, 1) && Cong(q, w, c * DiffProduct(missing, xs[i]));
    hide Cong, DiffProduct, ProductBut;
    DivideOut(q, c, DiffProduct(xs, xs[i]), DiffProduct(missing, xs[i]), full, w);
  }

  lemma DivideOut(q: nat, c: int, dk: int, dm: int, full: int, w: int)
    requires q > 0 && full == dk * dm && Cong(q, c * full, 1) && Cong(q, w, c * dm)
    ensures Cong(q, w * dk, 1)
  {
    hide Cong;
    CongReflexive(q, dk);
    CongTimes(q, w, c * dm, dk, dk);
    assert (c * dm) * dk == c * (dk * dm);
    CongTransitive(q, w * dk, c * full, 1);
  }

  lemma MissingProduct(q: nat, xs: seq<int>, missing: seq<int>, j: nat, r: int)
    requires Prime(q) && Complementary(xs, missing) && |xs| + |missing| <= q && j < |missing|
    requires PartialCoefficient(q, r, DiffProduct(Range(|xs| + |missing|), missing[j]),
                                DiffProduct(missing, missing[j]), false)
    ensures Cong(q, r, DiffProduct(xs, missing[j]))
  {
    ComplementElements(xs, missing);
    ComplementProducts(xs, missing, missing[j]);
    DiffProductUnit(q, missing, missing[j]);
    hide Cong, DiffProduct, Unit, Prime;
    CancelRight(q, r, DiffProduct(xs, missing[j]), DiffProduct(missing, missing[j]),
                DiffProduct(Range(|xs| + |missing|), missing[j]));
  }

  lemma CancelRight(q: nat, r: int, dk: int, dm: int, full: int)
    requires q > 0 && full == dk * dm && Cong(q, r * dm, full) && Unit(q, dm)
    ensures Cong(q, r, dk)
  {
    hide Cong, Unit;
    assert r * dm == dm * r && dk * dm == dm * dk;
    UnitCancel(q, dm, r, dk);
  }

  lemma TermCong(q: nat, d: int, diff: int, all: int, dk: int, coeff: int, w: int, y: int, product: int, term: int)
    requires q > 0 && Cong(q, d * diff, 1) && Cong(q, all, dk) && dk == product * diff && Cong(q, coeff, w * y)
    requires term == d * all % q * coeff % q
    ensures Cong(q, term, w * y * product)
  {
    hide Cong;
    CongReflexive(q, d);
    CongTimes(q, d, d, all, dk);
    CongReflexive(q, product);
    CongTimes(q, product, product, d * diff, 1);
    assert d * (product * diff) == product * (d * diff) && product * 1 == product;
    CongTransitive(q, d * all, product * (d * diff), product);
    CongReduce(q, d * all, product);
    CongTimes(q, d * all % q, product, coeff, w * y);
    CongReduce(q, d * all % q * coeff, product * (w * y));
    assert product * (w * y) == w * y * product;
  }

  /** The coefficients of the known points: the inverse weight times the value. */
  method KnownCoefficients(q: nat, known: seq<Share>, missing: seq<nat>, fact: seq<nat>, invFact: seq<nat>,
                           inv: seq<nat>)
    returns (coeffs: seq<Share>, ghost ws: seq<int>)
    requires q > 1 && Tables(q, |known| + |missing|, fact, invFact, inv) && Complementary(Xs(known), missing)
    ensures Weights(q, Xs(known), ws) && |coeffs| == |ws| == |known|
    ensures forall i :: 0 <= i < |known| ==> coeffs[i].0 == known[i].0 && Cong(q, coeffs[i].1, ws[i] * known[i].1)
  {
    coeffs, ws := [], [];
    ComplementElements(Xs(known), missing);
    hide Cong, Complementary, Tables, PartialCoefficient;
    for i := 0 to |known|
      invariant |coeffs| == |ws| == i
      invariant forall j :: 0 <= j < i ==> Cong(q, ws[j] * ProductBut(Xs(known), j, Xs(known)[j]), 1)
      invariant forall j :: 0 <= j < i ==> coeffs[j].0 == known[j].0 && Cong(q, coeffs[j].1, ws[j] * known[j].1)
    {
      var (x, y) := known[i];
      assert x == Xs(known)[i];
      var w := GetCoeff(q, |known| + |missing|, fact, invFact, inv, missing, x, true);
      KnownWeight(q, Xs(known), missing, i, w);
      CongReflexive(q, w * y);
      CongReduce(q, w * y, w * y);
      coeffs, ws := coeffs + [(x, w * y % q)], ws + [w];
    }
  }

  /** The sum over the known points at one missing point. */
  method ValueAt(q: nat, known: seq<Share>, missing: seq<nat>, fact: seq<nat>, invFact: seq<nat>, inv: seq<nat>,
                 coeffs: seq<Share>, ghost ws: seq<int>, j: nat) returns (sum: nat)
    requires Prime(q) && Tables(q, |known| + |missing|, fact, invFact, inv)
    requires Complementary(Xs(known), missing) && |known| + |missing| <= q && j < |missing|
    requires |coeffs| == |ws| == |known|
    requires forall i :: 0 <= i < |known| ==> coeffs[i].0 == known[i].0 && Cong(q, coeffs[i].1, ws[i] * known[i].1)
    ensures sum < q && Cong(q, sum, LagrangeSum(Xs(known), ws, Ys(known), |known|, missing[j]))
  {
    var n := |known| + |missing|;
    var xs, x := Xs(known), missing[j];
    PrimePositive(q);
    ComplementElements(xs, missing);
    TablesInverses(q, n, fact, invFact, inv);
    var all := GetCoeff(q, n, fact, invFact, inv, missing, x, false);
    MissingProduct(q, xs, missing, j, all);
    sum := 0;
    CongReflexive(q, 0);
    hide Cong, Complementary, Tables, PartialCoefficient, Prime, DiffProduct, ProductBut;
    for i := 0 to |known|
      invariant sum < q && Cong(q, sum, LagrangeSum(xs, ws, Ys(known), i, x))
    {
      var (xi, coeff) := coeffs[i];
      assert xi == xs[i] && xi != x;
      var d := if xi < x then inv[x - xi] else -inv[xi - x] % q;
      InverseDifference(q, n, inv, x, xi);
      ProductElsewhere(xs, i, x);
      var term := d * all % q * coeff % q;
      TermCong(q, d, x - xi, all, DiffProduct(xs, x), coeff, ws[i], Ys(known)[i], ProductBut(xs, i, x), term);
      CongAdd(q, sum, LagrangeSum(xs, ws, Ys(known), i, x), term, ws[i] * Ys(known)[i] * ProductBut(xs, i, x));
      CongReduce(q, sum + term, LagrangeSum(xs, ws, Ys(known), i + 1, x));
      sum := (sum + term) % q;
    }
  }

  lemma TablesInverses(q: nat, n: nat, fact: seq<nat>, invFact: seq<nat>, inv: seq<nat>)
    requires q > 0 && Tables(q, n, fact, invFact, inv)
    ensures |inv| == n && forall j :: 1 <= j < n ==> Cong(q, inv[j] * j, 1)
  {
  }

  lemma PointsApart(q: nat, xs: seq<int>)
    requires Prime(q) && Distinct(xs) && forall i :: 0 <= i < |xs| ==> 0 <= xs[i] < q
    ensures Apart(q, xs)
  {
    hide Unit, Prime;
    forall i, j | 0 <= i < |xs| && 0 <= j < |xs| && i != j
      ensures Unit(q, xs[i] - xs[j])
    {
      SmallUnit(q, xs[i] - xs[j]);
    }
  }

  /**
   * `values` are those at the points `missing` of every polynomial through `known` that has no more
   * coefficients than there are known points.
   */
  ghost predicate Interpolates(q: nat, known: seq<Share>, missing: seq<nat>, values: seq<nat>)
    requires q > 0
  {
    && |values| == |missing|
    && forall p: Poly :: |p| <= |known| && Through(q, p, Xs(known), Ys(known)) ==>
         forall j :: 0 <= j < |missing| ==> values[j] == Eval(p, missing[j]) % q
  }

  /**
   * The values at the missing points of any polynomial through the known points that has no more
   * coefficients than there are known points.
   */
  method LagrangeInterpolateWholePolynomial(q: nat, known: seq<Share>, missing: seq<nat>) returns (values: seq<nat>)
    requires Prime(q) && |known| + |missing| > 0 && |known| + |missing| <= q
    requires Complementary(Xs(known), missing)
    ensures Interpolates(q, known, missing, values)
  {
    var n := |known| + |missing|;
    PrimePositive(q);
    ComplementElements(Xs(known), missing);
    PointsApart(q, Xs(known));
    hide Prime, Cong, Tables, Weights, Apart, Complementary, Through;
    var fact, invFact, inv := PrecalculatedFactorialsAndInverses(q, n);
    var coeffs;
    ghost var ws;
    coeffs, ws := KnownCoefficients(q, known, missing, fact, invFact, inv);
    values := [];
    for j := 0 to |missing|
      invariant |values| == j
      invariant forall t :: 0 <= t < j ==>
                  values[t] < q && Cong(q, values[t], LagrangeSum(Xs(known), ws, Ys(known), |known|, missing[t]))
    {
      var v := ValueAt(q, known, missing, fact, invFact, inv, coeffs, ws, j);
      values := values + [v];
    }
    forall p: Poly, j | |p| <= |known| && Through(q, p, Xs(known), Ys(known)) && 0 <= j < |missing|
      ensures values[j] == Eval(p, missing[j]) % q
    {
      LagrangeIsUnique(q, p, Xs(known), ws, Ys(known), missing[j]);
      var sum := LagrangeSum(Xs(known), ws, Ys(known), |known|, missing[j]);
      CongSymmetric(q, Eval(p, missing[j]), sum);
      CongTransitive(q, values[j], sum, Eval(p, missing[j]));
      CongIsMod(q, values[j], Eval(p, missing[j]));
    }
  }

  /** There is such a polynomial, and all of them have the same values modulo q. */
  lemma InterpolantExists(q: nat, xs: seq<int>, ys: seq<int>) returns (p: Poly)
    requires Prime(q) && |xs| == |ys| && Distinct(xs) && forall i :: 0 <= i < |xs| ==> 0 <= xs[i] < q
    ensures |p| == |xs| && Through(q, p, xs, ys)
    ensures forall r: Poly, x :: |r| <= |xs| && Through(q, r, xs, ys) ==> Cong(q, Eval(r, x), Eval(p, x))
  {
    var ws := SomeWeights(q, xs, |xs|);
    PointsApart(q, xs);
    p := Lagrange(xs, ws, ys, |xs|);
    LagrangeThrough(q, xs, ws, ys);
    hide Cong, Through, Apart, Lagrange;
    forall r: Poly, x | |r| <= |xs| && Through(q, r, xs, ys)
      ensures Cong(q, Eval(r, x), Eval(p, x))
    {
      InterpolationUnique(q, r, p, xs, ys, x);
    }
  }

  lemma {:induction false} SomeWeights(q: nat, xs: seq<int>, n: nat) returns (ws: seq<int>)
    requires Prime(q) && Distinct(xs) && n <= |xs| && forall i :: 0 <= i < |xs| ==> 0 <= xs[i] < q
    ensures |ws| == n && forall i :: 0 <= i < n ==> Cong(q, ws[i] * ProductBut(xs, i, xs[i]), 1)
  {
    hide Cong, ProductBut;
    if n == 0 {
      ws := [];
    } else {
      ws := SomeWeights(q, xs, n - 1);
      PointsApart(q, xs);
      ProductButUnit(q, xs, n - 1, xs[n - 1]);
      var product := ProductBut(xs, n - 1, xs[n - 1]);
      var w :| Cong(q, product * w, 1);
      assert product * w == w * product;
      ws := ws + [w];
    }
  }
}
