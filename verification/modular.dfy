/** Congruence and coprimality. */
module Modular {
  import opened Bits

  ghost predicate Cong(p: nat, x: int, y: int)
    requires p > 0
  {
    (x - y) % p == 0
  }

  lemma CongIntro(p: nat, x: int, y: int, k: int)
    requires p > 0 && x - y == p * k
    ensures Cong(p, x, y)
  {
    DivModUnique(x - y, p, k, 0);
  }

  lemma CongWitness(p: nat, x: int, y: int) returns (k: int)
    requires p > 0 && Cong(p, x, y)
    ensures x - y == p * k
  {
    k := (x - y) / p;
  }

  lemma CongSymmetric(p: nat, x: int, y: int)
    requires p > 0 && Cong(p, x, y)
    ensures Cong(p, y, x)
  {
    hide Cong;
    var k := CongWitness(p, x, y);
    CongIntro(p, y, x, -k);
  }

  lemma CongTransitive(p: nat, x: int, y: int, z: int)
    requires p > 0 && Cong(p, x, y) && Cong(p, y, z)
    ensures Cong(p, x, z)
  {
    hide Cong;
    var j := CongWitness(p, x, y);
    var k := CongWitness(p, y, z);
    Distribute(p, j, k);
    CongIntro(p, x, z, j + k);
  }

  lemma CongAdd(p: nat, x: int, y: int, u: int, v: int)
    requires p > 0 && Cong(p, x, y) && Cong(p, u, v)
    ensures Cong(p, x + u, y + v)
  {
    hide Cong;
    var j := CongWitness(p, x, y);
    var k := CongWitness(p, u, v);
    Distribute(p, j, k);
    CongIntro(p, x + u, y + v, j + k);
  }

  lemma CongTimes(p: nat, x: int, y: int, u: int, v: int)
    requires p > 0 && Cong(p, x, y) && Cong(p, u, v)
    ensures Cong(p, x * u, y * v)
  {
    hide Cong;
    var j := CongWitness(p, x, y);
    var k := CongWitness(p, u, v);
    ProductDifference(p, x, y, u, v, j, k);
    CongIntro(p, x * u, y * v, j * u + y * k);
  }

  lemma ProductDifference(p: int, x: int, y: int, u: int, v: int, j: int, k: int)
    requires x - y == p * j && u - v == p * k
    ensures x * u - y * v == p * (j * u + y * k)
  {
    calc {
      x * u - y * v;
      (x - y) * u + y * (u - v);
      (p * j) * u + y * (p * k);
      { assert y * (p * k) == p * (y * k); }
      p * (j * u) + p * (y * k);
      { Distribute(p, j * u, y * k); }
      p * (j * u + y * k);
    }
  }

  lemma CongReflexive(p: nat, x: int)
    requires p > 0
    ensures Cong(p, x, x)
  {
    CongIntro(p, x, x, 0);
  }

  lemma CongMod(p: nat, x: int)
    requires p > 0
    ensures Cong(p, x, x % p)
  {
    CongIntro(p, x, x % p, x / p);
  }

  /** Canonical representatives are unique. */
  lemma CongCanonical(p: nat, x: int, y: int)
    requires p > 0 && Cong(p, x, y) && 0 <= x < p && 0 <= y < p
    ensures x == y
  {
    var k := CongWitness(p, x, y);
    DivModUnique(x, p, 0, x);
    DivModUnique(x, p, k, y);
  }

  lemma CongIsMod(p: nat, x: int, y: int)
    requires p > 0 && Cong(p, x, y) && 0 <= x < p
    ensures x == y % p
  {
    hide Cong;
    CongMod(p, y);
    CongTransitive(p, x, y, y % p);
    CongCanonical(p, x, y % p);
  }

  /** What has an inverse cancels. */
  lemma CongCancel(p: nat, c: int, inv: int, x: int, y: int)
    requires p > 0 && Cong(p, c * inv, 1) && Cong(p, c * x, c * y)
    ensures Cong(p, x, y)
  {
    hide Cong;
    CongReflexive(p, inv);
    CongTimes(p, inv, inv, c * x, c * y);
    CongUnit(p, c, inv, x);
    CongUnit(p, c, inv, y);
    CongSymmetric(p, inv * (c * x), x);
    CongTransitive(p, x, inv * (c * x), inv * (c * y));
    CongTransitive(p, x, inv * (c * y), y);
  }

  lemma CongUnit(p: nat, c: int, inv: int, x: int)
    requires p > 0 && Cong(p, c * inv, 1)
    ensures Cong(p, inv * (c * x), x)
  {
    hide Cong;
    CongReflexive(p, x);
    CongTimes(p, c * inv, 1, x, x);
    assert (c * inv) * x == inv * (c * x) && 1 * x == x;
  }

  // ----- coprimality

  ghost predicate Divides(d: nat, x: int)
    requires d > 0
  {
    x % d == 0
  }

  lemma DividesIntro(d: nat, x: int, k: int)
    requires d > 0 && x == d * k
    ensures Divides(d, x)
  {
    DivModUnique(x, d, k, 0);
  }

  lemma DividesWitness(d: nat, x: int) returns (k: int)
    requires d > 0 && Divides(d, x)
    ensures x == d * k
  {
    k := x / d;
  }

  /** A divisor of two numbers divides their linear combinations. */
  lemma DividesCombination(d: nat, x: int, y: int, a: int, b: int)
    requires d > 0 && Divides(d, x) && Divides(d, y)
    ensures Divides(d, a * x + b * y)
  {
    hide Divides;
    var j := DividesWitness(d, x);
    var k := DividesWitness(d, y);
    CombinationIdentity(d, x, y, a, b, j, k);
    DividesIntro(d, a * x + b * y, a * j + b * k);
  }

  lemma CombinationIdentity(d: int, x: int, y: int, a: int, b: int, j: int, k: int)
    requires x == d * j && y == d * k
    ensures a * x + b * y == d * (a * j + b * k)
  {
    assert a * (d * j) == d * (a * j) && b * (d * k) == d * (b * k);
    Distribute(d, a * j, b * k);
  }

  ghost predicate Coprime(x: int, y: int) {
    forall d: nat :: d > 0 && Divides(d, x) && Divides(d, y) ==> d == 1
  }
}
