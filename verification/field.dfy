/**
 * Arithmetic modulo an odd number p of exactly n bits.
 *
 * The width, the modulus and the Montgomery constant are parameters, as in the source's field
 * trait. Most gadgets accept every n-bit vector; their results are canonical for canonical inputs.
 */
module Field {
  import opened Gates
  import opened Bits
  import opened Modular
  import opened BigIntSelect
  import opened BigIntCompare
  import BigIntAdd

  /** `mInverse` is the inverse of the modulus modulo 2^n. */
  datatype Params = Params(n: nat, p: nat, mInverse: nat)

  ghost predicate Valid(f: Params) {
    && f.n >= 2 && f.p % 2 == 1 && Pow2(f.n - 1) < f.p < Pow2(f.n)
    && f.mInverse < Pow2(f.n) && Cong(Pow2(f.n), f.p * f.mInverse, 1)
  }

  ghost predicate Canonical(f: Params, a: seq<bool>) {
    |a| == f.n && Num(a) < f.p
  }

  function NotModulus(f: Params): int {
    Pow2(f.n) - f.p
  }

  lemma Bounds(f: Params)
    requires Valid(f)
    ensures f.n >= 2 && f.p % 2 == 1 && 3 <= f.p && f.p < Pow2(f.n) < 2 * f.p && 0 < NotModulus(f) < f.p
  {
    assert Pow2(f.n) == 2 * Pow2(f.n - 1);
    Pow2Monotone(1, f.n - 1);
    assert Pow2(1) == 2;
  }

  /**
   * The common end of the additions: takes the modulus off the (n+1)-bit sum if that is at least
   * the modulus.
   */
  method SubtractModulusOnce(f: Params, sum: seq<bool>, u: bool) returns (r: seq<bool>)
    requires Valid(f) && |sum| == f.n
    ensures |r| == f.n
    ensures var t := Num(sum) + if u then Pow2(f.n) else 0;
            Num(r) == if t < f.p then t else (t - f.p) % Pow2(f.n)
  {
    hide Num, Pow2, Valid;
    Bounds(f);
    var sum2 := BigIntAdd.AddConstantWithoutCarry(sum, NotModulus(f));
    var v := LessThanConstant(sum, f.p);
    var s := Truth(AndVariant(true, false, false), u, v);
    NumBound(sum);
    if u || Num(sum) >= f.p {
      var t := Num(sum) + if u then Pow2(f.n) else 0;
      ModAddMultiple(t - f.p, Pow2(f.n), Num(sum) + NotModulus(f), if u then 0 else 1);
    }
    r := Select(sum, sum2, s);
  }

  /** Field addition; exact on all inputs. */
  method Add(f: Params, a: seq<bool>, b: seq<bool>) returns (r: seq<bool>)
    requires Valid(f) && |a| == |b| == f.n
    ensures |r| == f.n
    ensures var t := Num(a) + Num(b); Num(r) == if t < f.p then t else (t - f.p) % Pow2(f.n)
    ensures Canonical(f, a) && Canonical(f, b) ==> Canonical(f, r) && Num(r) == (Num(a) + Num(b)) % f.p
  {
    hide Num, Pow2, Valid;
    Bounds(f);
    var wires := BigIntAdd.Add(a, b);
    NumTake(wires, f.n);
    assert wires[..f.n + 1] == wires;
    r := SubtractModulusOnce(f, wires[..f.n], wires[f.n]);
    OnceIsMod(Num(a) + Num(b), f.p, Pow2(f.n));
  }

  lemma OnceIsMod(t: int, p: nat, m: nat)
    requires 0 <= t && 0 < p < m
    ensures t < p ==> t == t % p
    ensures p <= t < 2 * p ==> (t - p) % m == t % p
  {
    if t < p {
      DivModUnique(t, p, 0, t);
    } else if t < 2 * p {
      DivModUnique(t - p, m, 0, t - p);
      DivModUnique(t, p, 1, t - p);
    }
  }

  /** Addition of a field constant. Zero passes the input through unreduced. */
  method AddConstant(f: Params, a: seq<bool>, b: nat) returns (r: seq<bool>)
    requires Valid(f) && |a| == f.n && b < f.p
    ensures |r| == f.n
    ensures Num(r) == if b == 0 || Num(a) + b < f.p then Num(a) + b else Num(a) + b - f.p
    ensures Canonical(f, a) ==> Canonical(f, r) && Num(r) == (Num(a) + b) % f.p
  {
    hide Num, Pow2, Valid;
    Bounds(f);
    NumBound(a);
    OnceIsMod(Num(a) + b, f.p, Pow2(f.n));
    if b == 0 {
      r := a;
      return;
    }
    var wires := BigIntAdd.AddConstant(a, b);
    NumTake(wires, f.n);
    assert wires[..f.n + 1] == wires;
    r := SubtractModulusOnce(f, wires[..f.n], wires[f.n]);
    if Num(a) + b >= f.p {
      DivModUnique(Num(a) + b - f.p, Pow2(f.n), 0, Num(a) + b - f.p);
    }
  }

  /** The constant that negation adds: 1 - (2^n - p) in the field. */
  function NegConstant(f: Params): int
    requires f.p > 0
  {
    (1 - NotModulus(f)) % f.p
  }

  /** Negation gives p - a: the noncanonical p for zero. A noncanonical input is reduced on the way. */
  method Neg(f: Params, a: seq<bool>) returns (r: seq<bool>)
    requires Valid(f) && |a| == f.n
    ensures |r| == f.n && Num(r) == (if Num(a) <= f.p then f.p else 2 * f.p) - Num(a)
  {
    hide Num, Pow2, Valid;
    Bounds(f);
    NumBound(a);
    var notA := Inverted(a);
    var c := NegConstant(f);
    if NotModulus(f) == 1 {
      DivModUnique(0, f.p, 0, 0);
    } else {
      DivModUnique(1 - NotModulus(f), f.p, -1, 1 - NotModulus(f) + f.p);
    }
    r := AddConstant(f, notA, c);
  }

  /** Subtraction is canonical although it goes through the noncanonical negation. */
  method Sub(f: Params, a: seq<bool>, b: seq<bool>) returns (r: seq<bool>)
    requires Valid(f) && |a| == |b| == f.n
    ensures |r| == f.n
    ensures Canonical(f, a) && Canonical(f, b) ==> Canonical(f, r) && Num(r) == (Num(a) - Num(b)) % f.p
  {
    hide Num, Pow2, Valid;
    Bounds(f);
    var negB := Neg(f, b);
    r := Add(f, a, negB);
    OnceIsMod(Num(a) + Num(negB), f.p, Pow2(f.n));
    if Num(b) < f.p {
      ModAddMultiple(Num(a) - Num(b), f.p, Num(a) + Num(negB), 1);
    }
  }

  method Double(f: Params, a: seq<bool>) returns (r: seq<bool>)
    requires Valid(f) && |a| == f.n
    ensures |r| == f.n
    ensures var t := 2 * Num(a); Num(r) == if t < f.p then t else (t - f.p) % Pow2(f.n)
    ensures Canonical(f, a) ==> Canonical(f, r) && Num(r) == 2 * Num(a) % f.p
  {
    hide Num, Pow2, Valid;
    Bounds(f);
    NumCons(false, a);
    var shifted := [false] + a;
    NumTake(shifted, f.n);
    assert shifted[..f.n + 1] == shifted;
    assert shifted[..f.n] == [false] + a[..f.n - 1];
    r := SubtractModulusOnce(f, [false] + a[..f.n - 1], a[f.n - 1]);
    OnceIsMod(2 * Num(a), f.p, Pow2(f.n));
  }

  /** Twice the inverse of two is one. */
  function HalfModulus(f: Params): nat {
    (f.p + 1) / 2
  }

  lemma HalfFits(p: nat, m: nat, a: nat)
    requires p % 2 == 1 && p < m && a < m
    ensures a % 2 == 1 ==> (a / 2 + (p + 1) / 2) % m == a / 2 + (p + 1) / 2 && 2 * (a / 2 + (p + 1) / 2) == a + p
  {
    if a % 2 == 1 {
      DivModUnique(a / 2 + (p + 1) / 2, m, 0, a / 2 + (p + 1) / 2);
    }
  }

  /** Division by two: of a if even, of a + p if odd. */
  method Half(f: Params, a: seq<bool>) returns (r: seq<bool>)
    requires Valid(f) && |a| == f.n
    ensures |r| == f.n
    ensures 2 * Num(r) == Num(a) + if Num(a) % 2 == 1 then f.p else 0
    ensures Canonical(f, a) ==> Canonical(f, r) && Cong(f.p, 2 * Num(r), Num(a))
  {
    hide Num, Pow2, Valid, Cong;
    Bounds(f);
    NumBound(a);
    HalfFits(f.p, Pow2(f.n), Num(a));
    var halved := BigIntAdd.Half(a);
    var shifted := BigIntAdd.AddConstantWithoutCarry(halved, HalfModulus(f));
    r := Select(shifted, halved, a[0]);
    CongIntro(f.p, 2 * Num(r), Num(a), if a[0] then 1 else 0);
  }

  method Triple(f: Params, a: seq<bool>) returns (r: seq<bool>)
    requires Valid(f) && Canonical(f, a)
    ensures Canonical(f, r) && Num(r) == 3 * Num(a) % f.p
  {
    hide Num, Pow2, Valid;
    Bounds(f);
    var a2 := Double(f, a);
    r := Add(f, a2, a);
    ModAddMultiple(2 * Num(a) % f.p + Num(a), f.p, 3 * Num(a), 2 * Num(a) / f.p);
  }

  // ----- division by six

  /** The field elements 1/3 and 2/3. */
  function OneThird(f: Params): nat {
    if f.p % 3 == 1 then (2 * f.p + 1) / 3 else (f.p + 1) / 3
  }

  function TwoThird(f: Params): nat {
    if f.p % 3 == 1 then (f.p + 2) / 3 else (2 * f.p + 2) / 3
  }

  /** One step of the long division by three. */
  lemma ThirdStep(rest: nat, h: bool, r1: bool, r2: bool)
    requires rest == 2 * Bit(r1) + Bit(r2) <= 2
    ensures var q := Truth(Or, r1, Truth(And, r2, h));
            var r1' := Truth(Xor, Truth(Xor, r2, q), Truth(Nimp, q, h));
            var r2' := Truth(Xor, h, q);
            2 * rest + Bit(h) == 3 * Bit(q) + 2 * Bit(r1') + Bit(r2') && !(r1' && r2')
  {
  }

  /** The quotient by three, and the remainder in two wires. */
  method DivideByThree(half: seq<bool>) returns (q: seq<bool>, r1: bool, r2: bool)
    ensures |q| == |half| && !(r1 && r2)
    ensures Num(half) == 3 * Num(q) + 2 * Bit(r1) + Bit(r2)
  {
    hide Num;
    r1, r2 := false, false;
    q := Zeros(|half|);
    NumZeros(half[|half|..]);
    NumZeros(q[|half|..]);
    for i := 0 to |half|
      invariant |q| == |half| && !(r1 && r2)
      invariant Num(half[|half| - i..]) == 3 * Num(q[|half| - i..]) + 2 * Bit(r1) + Bit(r2)
    {
      var j := |half| - 1 - i;
      ghost var was := q;
      ThirdStep(2 * Bit(r1) + Bit(r2), half[j], r1, r2);
      var r2AndHj := Truth(And, r2, half[j]);
      var resultWire := Truth(Or, r1, r2AndHj);
      q := q[j := resultWire];
      r1 := Truth(Xor, r2, resultWire);
      r2 := Truth(Xor, half[j], resultWire);
      var edgeCase := Truth(Nimp, resultWire, half[j]);
      r1 := Truth(Xor, r1, edgeCase);
      NumUncons(half[j..]);
      NumUncons(q[j..]);
      assert half[j..][1..] == half[j + 1..] && q[j..][1..] == was[j + 1..];
    }
    assert half[0..] == half && q[0..] == q;
  }

  lemma ThirdConstants(f: Params)
    requires f.p >= 3 && f.p % 3 != 0
    ensures 0 < OneThird(f) < f.p && (3 * OneThird(f) == 1 + f.p || 3 * OneThird(f) == 1 + 2 * f.p)
    ensures 0 < TwoThird(f) < f.p && (3 * TwoThird(f) == 2 + f.p || 3 * TwoThird(f) == 2 + 2 * f.p)
  {
  }

  /** Adding a third constant does not overflow and makes up for the remainder. */
  lemma ThirdFits(p: nat, m: nat, h: nat, q: nat, rest: nat, third: nat)
    requires h < p < m && h == 3 * q + rest
    requires 3 * third == rest + p || 3 * third == rest + 2 * p
    ensures q + third < p && (q + third) % m == q + third && Cong(p, 3 * (q + third), h)
  {
    DivModUnique(q + third, m, 0, q + third);
    CongIntro(p, 3 * (q + third), h, if 3 * third == rest + p then 1 else 2);
  }

  /** Division by six: a long division of a/2 by three with the remainder corrected in the field. */
  method Div6(f: Params, a: seq<bool>) returns (r: seq<bool>)
    requires Valid(f) && Canonical(f, a) && f.p % 3 != 0
    ensures Canonical(f, r) && Cong(f.p, 6 * Num(r), Num(a))
  {
    hide Num, Pow2, Valid, Cong;
    Bounds(f);
    var half := Half(f, a);
    var q, r1, r2 := DivideByThree(half);
    r := AddThirds(f, q, r1, r2, Num(half));
    Sixth(f.p, Num(a), Num(half), Num(r));
  }

  /** Adds the third that the remainder stands for; neither addition overflows. */
  method AddThirds(f: Params, q: seq<bool>, r1: bool, r2: bool, ghost h: nat) returns (r: seq<bool>)
    requires Valid(f) && f.p % 3 != 0 && |q| == f.n && h < f.p
    requires h == 3 * Num(q) + 2 * Bit(r1) + Bit(r2) && !(r1 && r2)
    ensures Canonical(f, r) && Cong(f.p, 3 * Num(r), h)
  {
    hide Num, Pow2, Valid, OneThird, TwoThird, Cong;
    Bounds(f);
    ThirdConstants(f);
    CongReflexive(f.p, h);
    var plusOneThird := BigIntAdd.AddConstantWithoutCarry(q, OneThird(f));
    r := Select(plusOneThird, q, r2);
    if r2 {
      ThirdFits(f.p, Pow2(f.n), h, Num(q), 1, OneThird(f));
    }
    var plusTwoThird := BigIntAdd.AddConstantWithoutCarry(r, TwoThird(f));
    if r1 {
      ThirdFits(f.p, Pow2(f.n), h, Num(q), 2, TwoThird(f));
    }
    r := Select(plusTwoThird, r, r1);
  }

  lemma Sixth(p: nat, a: nat, h: nat, r: nat)
    requires p > 0 && Cong(p, 2 * h, a) && Cong(p, 3 * r, h)
    ensures Cong(p, 6 * r, a)
  {
    hide Cong;
    var j := CongWitness(p, 2 * h, a);
    var k := CongWitness(p, 3 * r, h);
    Distribute(p, j, 2 * k);
    CongIntro(p, 6 * r, a, j + 2 * k);
  }
}
