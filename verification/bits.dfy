/** Little-endian bit vectors and the numbers they stand for. */
module Bits {
  import opened Wrappers

  function Pow2(n: nat): (r: nat)
    ensures r >= 1
  {
    if n == 0 then 1 else 2 * Pow2(n - 1)
  }

  function Bit(b: bool): nat {
    if b then 1 else 0
  }

  /** The number that a bit vector stands for; bit 0 is the least significant. */
  function Num(bs: seq<bool>): nat {
    if |bs| == 0 then 0
    else
      var n := |bs| - 1;
      Num(bs[..n]) + if bs[n] then Pow2(n) else 0
  }

  /** The bits of a constant, as many as asked for. */
  function ToBits(c: nat, len: nat): (r: seq<bool>)
    ensures |r| == len
  {
    if len == 0 then [] else [c % 2 == 1] + ToBits(c / 2, len - 1)
  }

  function Zeros(len: nat): (r: seq<bool>)
    ensures |r| == len && forall i :: 0 <= i < len ==> !r[i]
  {
    seq(len, i => false)
  }

  // ----- powers

  lemma {:induction false} Pow2Add(a: nat, b: nat)
    ensures Pow2(a + b) == Pow2(a) * Pow2(b)
  {
    if a > 0 {
      Pow2Add(a - 1, b);
      assert Pow2(a + b) == 2 * Pow2(a - 1 + b);
    }
  }

  lemma {:induction false} Pow2Monotone(a: nat, b: nat)
    requires a <= b
    ensures Pow2(a) <= Pow2(b)
    ensures a < b ==> 2 * Pow2(a) <= Pow2(b)
    decreases b
  {
    if a < b {
      Pow2Monotone(a, b - 1);
    }
  }

  // ----- numbers

  lemma NumPush(bs: seq<bool>, b: bool)
    ensures Num(bs + [b]) == Num(bs) + if b then Pow2(|bs|) else 0
  {
    assert (bs + [b])[..|bs|] == bs;
  }

  lemma NumTake(bs: seq<bool>, i: nat)
    requires i < |bs|
    ensures Num(bs[..i + 1]) == Num(bs[..i]) + if bs[i] then Pow2(i) else 0
  {
    assert bs[..i + 1] == bs[..i] + [bs[i]];
    NumPush(bs[..i], bs[i]);
  }

  lemma {:induction false} NumBound(bs: seq<bool>)
    ensures Num(bs) < Pow2(|bs|)
  {
    if |bs| > 0 {
      NumBound(bs[..|bs| - 1]);
    }
  }

  lemma {:induction false} NumConcat(a: seq<bool>, b: seq<bool>)
    ensures Num(a + b) == Num(a) + Pow2(|a|) * Num(b)
  {
    if |b| == 0 {
      assert a + b == a;
    } else {
      var n := |b| - 1;
      NumConcat(a, b[..n]);
      assert a + b == (a + b[..n]) + [b[n]];
      NumPush(a + b[..n], b[n]);
      Pow2Add(|a|, n);
      if b[n] {
        Distribute(Pow2(|a|), Num(b[..n]), Pow2(n));
      }
    }
  }

  lemma Distribute(x: int, y: int, z: int)
    ensures x * (y + z) == x * y + x * z
  {
  }

  lemma NumSplit(bs: seq<bool>, i: nat)
    requires i <= |bs|
    ensures Num(bs) == Num(bs[..i]) + Pow2(i) * Num(bs[i..])
  {
    assert bs == bs[..i] + bs[i..];
    NumConcat(bs[..i], bs[i..]);
  }

  lemma NumCons(b: bool, bs: seq<bool>)
    ensures Num([b] + bs) == Bit(b) + 2 * Num(bs)
  {
    NumConcat([b], bs);
    assert [b][..0] == [];
    assert Pow2(1) == 2 && Num([b]) == Bit(b);
  }

  lemma NumUncons(bs: seq<bool>)
    requires |bs| > 0
    ensures Num(bs) == Bit(bs[0]) + 2 * Num(bs[1..])
  {
    assert bs == [bs[0]] + bs[1..];
    NumCons(bs[0], bs[1..]);
  }

  lemma {:induction false} NumZeros(bs: seq<bool>)
    requires forall i :: 0 <= i < |bs| ==> !bs[i]
    ensures Num(bs) == 0
  {
    if |bs| > 0 {
      NumZeros(bs[..|bs| - 1]);
    }
  }

  /**
   * Exclusive or is addition without carries: together with the carries, the positions set in both,
   * twice, it gives the sum.
   */
  lemma {:induction false} NumXor(a: seq<bool>, b: seq<bool>, x: seq<bool>, both: seq<bool>)
    requires |a| == |b| == |x| == |both|
    requires forall i :: 0 <= i < |a| ==> x[i] == (a[i] != b[i]) && both[i] == (a[i] && b[i])
    ensures Num(x) + 2 * Num(both) == Num(a) + Num(b)
  {
    if |a| > 0 {
      var n := |a| - 1;
      NumXor(a[..n], b[..n], x[..n], both[..n]);
    }
  }

  /** The constant's bits stand for the constant if it fits, and for its low bits otherwise. */
  lemma {:induction false} NumToBits(c: nat, len: nat)
    ensures c < Pow2(len) ==> Num(ToBits(c, len)) == c
    decreases len
  {
    if len > 0 {
      NumToBits(c / 2, len - 1);
      NumCons(c % 2 == 1, ToBits(c / 2, len - 1));
    }
  }

  /** A bit vector is determined by its length and its number. */
  lemma {:induction false} NumInjective(a: seq<bool>, b: seq<bool>)
    requires |a| == |b| && Num(a) == Num(b)
    ensures a == b
  {
    if |a| > 0 {
      NumUncons(a);
      NumUncons(b);
      assert Num(a[1..]) == Num(b[1..]);
      NumInjective(a[1..], b[1..]);
      assert a == [a[0]] + a[1..] && b == [b[0]] + b[1..];
    }
  }

  /** The low bits are the remainder, the high bits the quotient. */
  lemma NumDivMod(bs: seq<bool>, i: nat)
    requires i <= |bs|
    ensures Num(bs[..i]) == Num(bs) % Pow2(i) && Num(bs[i..]) == Num(bs) / Pow2(i)
  {
    NumSplit(bs, i);
    NumBound(bs[..i]);
    DivModUnique(Num(bs), Pow2(i), Num(bs[i..]), Num(bs[..i]));
  }

  lemma DivModUnique(x: int, d: int, q: int, r: int)
    requires d > 0 && x == r + d * q && 0 <= r < d
    ensures q == x / d && r == x % d
  {
    MulSuccessor(d, q, x / d);
    MulSuccessor(d, x / d, q);
    assert x == d * (x / d) + x % d;
  }

  lemma MulSuccessor(d: int, a: int, b: int)
    requires d > 0
    ensures a < b ==> d * a + d <= d * b
  {
    if a < b {
      var c := b - a - 1;
      assert d * c >= 0;
      assert d * b == d * a + d * (c + 1) by {
        Distribute(d, a, c + 1);
      }
      Distribute(d, c, 1);
    }
  }

  lemma MulBound(x: nat, m: nat, y: nat, n: nat)
    requires x < m && y < n
    ensures x * y < m * n
  {
    MulMonotone(x, m, y);
    MulMonotone(y, n, m);
    assert m * y <= m * n;
    MulSuccessor(m, y, n);
  }

  lemma MulMonotone(x: nat, m: nat, y: nat)
    requires x <= m
    ensures x * y <= m * y
  {
  }

  lemma ModAddMultiple(x: int, m: nat, y: int, k: int)
    requires m > 0 && y == x + m * k
    ensures x % m == y % m
  {
    Distribute(m, x / m, k);
    DivModUnique(y, m, x / m + k, x % m);
  }

  /** A number is zero exactly if all its bits are. */
  lemma {:induction false} NumZeroBits(bs: seq<bool>)
    ensures Num(bs) == 0 <==> forall i :: 0 <= i < |bs| ==> !bs[i]
  {
    if |bs| > 0 {
      NumZeroBits(bs[..|bs| - 1]);
    }
  }

  /** Overwriting a slice changes the number by the difference of the slices, shifted. */
  lemma NumWriteSlice(bs: seq<bool>, i: nat, new': seq<bool>)
    requires i + |new'| <= |bs|
    ensures Num(WriteSlice(bs, i, new')) == Num(bs) + Pow2(i) * (Num(new') - Num(bs[i..i + |new'|]))
  {
    hide Num, Pow2;
    var e := i + |new'|;
    NumParts(bs, i, e);
    NumParts(WriteSlice(bs, i, new'), i, e);
    assert WriteSlice(bs, i, new')[..i] == bs[..i] && WriteSlice(bs, i, new')[i..e] == new';
    assert WriteSlice(bs, i, new')[e..] == bs[e..];
    DistributeMinus(Pow2(i), Num(new'), Num(bs[i..e]));
  }

  lemma NumParts(bs: seq<bool>, i: nat, e: nat)
    requires i <= e <= |bs|
    ensures Num(bs) == Num(bs[..i]) + Pow2(i) * Num(bs[i..e]) + Pow2(e) * Num(bs[e..])
  {
    NumSplit(bs, e);
    NumSplit(bs[..e], i);
    assert bs[..e][..i] == bs[..i] && bs[..e][i..] == bs[i..e];
  }

  lemma DistributeMinus(x: int, y: int, z: int)
    ensures x * (y - z) == x * y - x * z
  {
  }
}
