/**
 * The smallest gadgets, gate by gate.
 *
 * From here on a wire is represented by the bit it carries, and adding a gate computes the bit of
 * its output wire. Gadgets write every wire once and before they read it, which is what the plain
 * meaning of a circuit asks for.
 */
module Basic {
  import opened Gates
  import opened Bits

  method HalfAdder(a: bool, b: bool) returns (result: bool, carry: bool)
    ensures Bit(result) + 2 * Bit(carry) == Bit(a) + Bit(b)
  {
    result := Truth(Xor, a, b);
    carry := Truth(And, a, b);
  }

  method FullAdder(a: bool, b: bool, c: bool) returns (result: bool, carry: bool)
    ensures Bit(result) + 2 * Bit(carry) == Bit(a) + Bit(b) + Bit(c)
  {
    var axc := Truth(Xor, a, c);
    var bxc := Truth(Xor, b, c);
    result := Truth(Xor, a, bxc);
    var t := Truth(And, axc, bxc);
    carry := Truth(Xor, c, t);
  }

  method HalfSubtracter(a: bool, b: bool) returns (result: bool, borrow: bool)
    ensures Bit(result) - 2 * Bit(borrow) == Bit(a) - Bit(b)
  {
    result := Truth(Xor, a, b);
    borrow := Truth(AndVariant(true, false, false), a, b);
  }

  method FullSubtracter(a: bool, b: bool, c: bool) returns (result: bool, carry: bool)
    ensures Bit(result) - 2 * Bit(carry) == Bit(a) - Bit(b) - Bit(c)
  {
    var bxa := Truth(Xor, a, b);
    var bxc := Truth(Xor, b, c);
    result := Truth(Xor, bxa, c);
    var t := Truth(And, bxa, bxc);
    carry := Truth(Xor, c, t);
  }

  /** `a` if `c` is set, otherwise `b`. */
  method Selector(a: bool, b: bool, c: bool) returns (g: bool)
    ensures g == if c then a else b
  {
    var d := Truth(Nand, a, c);
    var f := Truth(AndVariant(true, false, true), c, b);
    g := Truth(Nand, d, f);
  }

  /** Where entry `j` of the table comes from after `t` reductions. */
  ghost function Origin(s: seq<bool>, t: nat, j: nat): nat
    requires t <= |s|
  {
    Num(s[..t]) + Pow2(t) * j
  }

  /** After `t` reductions the table holds the entries whose low index bits are the first `t` selectors. */
  ghost predicate Level(a: seq<bool>, s: seq<bool>, t: nat, cur: seq<bool>)
    requires t <= |s|
  {
    && |cur| == Pow2(|s| - t)
    && forall j: nat :: j < |cur| ==> Origin(s, t, j) < |a| && cur[j] == a[Origin(s, t, j)]
  }

  lemma LevelStep(a: seq<bool>, s: seq<bool>, t: nat, cur: seq<bool>, next: seq<bool>)
    requires t < |s| && Level(a, s, t, cur)
    requires 2 * |next| == |cur| && forall j :: 0 <= j < |next| ==> next[j] == cur[2 * j + Bit(s[t])]
    ensures Level(a, s, t + 1, next)
  {
    var t' := t + 1;
    assert Pow2(|s| - t) == 2 * Pow2(|s| - t');
    forall j: nat | j < |next|
      ensures Origin(s, t', j) < |a| && next[j] == a[Origin(s, t', j)]
    {
      LevelAt(a, s, t, cur, j);
    }
  }

  lemma LevelAt(a: seq<bool>, s: seq<bool>, t: nat, cur: seq<bool>, j: nat)
    requires t < |s| && Level(a, s, t, cur) && 2 * j + 1 < |cur|
    ensures Origin(s, t + 1, j) < |a| && cur[2 * j + Bit(s[t])] == a[Origin(s, t + 1, j)]
  {
    var k := 2 * j + Bit(s[t]);
    assert Origin(s, t, k) < |a| && cur[k] == a[Origin(s, t, k)];
    NumTake(s, t);
    hide Level;
    Twice(Pow2(t), j);
    Distribute(Pow2(t), 2 * j, Bit(s[t]));
  }

  lemma Twice(x: nat, j: nat)
    ensures (2 * x) * j == x * (2 * j)
  {
  }

  /**
   * The entry of `a` that the selector bits number. The table is halved in place once for each
   * selector bit, from the least significant on.
   */
  method Multiplexer(a: seq<bool>, s: seq<bool>, w: nat) returns (r: bool)
    requires |s| == w && |a| == Pow2(w)
    ensures Num(s) < |a| && r == a[Num(s)]
  {
    hide Num, Pow2, Level;
    NumBound(s);
    var cur := a;
    LevelEnds(a, s, cur);
    for t := 0 to |s|
      invariant Level(a, s, t, cur)
    {
      ghost var was := cur;
      var len := |cur|;
      LevelEven(a, s, t, cur);
      var i, j := 0, 0;
      while i < len
        invariant i == 2 * j && i <= len == |cur|
        invariant forall k: nat :: k < j ==> cur[k] == was[2 * k + Bit(s[t])]
        invariant forall k: nat :: j <= k < len ==> cur[k] == was[k]
      {
        var low, high := cur[i], cur[i + 1];
        var g := Selector(high, low, s[t]);
        cur := cur[j := g];
        i, j := i + 2, j + 1;
      }
      cur := cur[..len / 2];
      LevelStep(a, s, t, was, cur);
    }
    LevelEnds(a, s, cur);
    r := cur[0];
  }

  lemma LevelEven(a: seq<bool>, s: seq<bool>, t: nat, cur: seq<bool>)
    requires t < |s| && Level(a, s, t, cur)
    ensures |cur| % 2 == 0
  {
  }

  /** The whole table at the start, the selected entry at the end. */
  lemma LevelEnds(a: seq<bool>, s: seq<bool>, cur: seq<bool>)
    requires |a| == Pow2(|s|)
    ensures Level(a, s, 0, a)
    ensures Level(a, s, |s|, cur) ==> |cur| == 1 && Num(s) < |a| && cur[0] == a[Num(s)]
  {
    assert s[..|s|] == s && s[..0] == [];
    assert forall j: nat :: Origin(s, 0, j) == j;
    if Level(a, s, |s|, cur) {
      assert Origin(s, |s|, 0) == Num(s);
    }
  }
}
