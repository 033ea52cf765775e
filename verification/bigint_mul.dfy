/** Multiplication of bit vectors: schoolbook, Karatsuba, and by constants. */
module BigIntMul {
  import opened Wrappers
  import opened Gates
  import opened Bits
  import opened BigIntAdd

  /** Adding `x` at position `i` in place: the spilled carry lands on a bit that was zero. */
  lemma NumAddAt(bs: seq<bool>, i: nat, sum: seq<bool>, x: nat)
    requires |sum| > 0 && i + |sum| <= |bs| && !bs[i + |sum| - 1]
    requires Num(sum) == Num(bs[i..i + |sum| - 1]) + x
    ensures Num(WriteSlice(bs, i, sum)) == Num(bs) + Pow2(i) * x
  {
    hide Num, Pow2, WriteSlice;
    NumWriteSlice(bs, i, sum);
    assert bs[i..i + |sum|] == bs[i..i + |sum| - 1] + [false];
    NumPush(bs[i..i + |sum| - 1], false);
  }

  /** One more bit of a factor. */
  lemma NumTakeTimes(a: nat, b: seq<bool>, i: nat)
    requires i < |b|
    ensures a * Num(b[..i + 1]) == a * Num(b[..i]) + Pow2(i) * if b[i] then a else 0
  {
    hide Num, Pow2;
    NumTake(b, i);
    if b[i] {
      Distribute(a, Num(b[..i]), Pow2(i));
    }
  }

  method MulNaive(a: seq<bool>, b: seq<bool>) returns (r: seq<bool>)
    requires |a| == |b|
    ensures |r| == 2 * |a| && Num(r) == Num(a) * Num(b)
  {
    hide Num, Pow2;
    var len := |a|;
    r := Zeros(len * 2);
    NumZeros(r);
    NumZeros(b[..0]);
    for i := 0 to len
      invariant |r| == 2 * len && Num(r) == Num(a) * Num(b[..i])
      invariant forall j :: i + len <= j < 2 * len ==> !r[j]
    {
      var addition0 := r[i..i + len];
      var addition1 := [];
      for j := 0 to len
        invariant |addition1| == j && forall k :: 0 <= k < j ==> addition1[k] == (a[k] && b[i])
      {
        addition1 := addition1 + [Truth(And, a[j], b[i])];
      }
      assert addition1 == if b[i] then a else Zeros(len);
      NumZeros(Zeros(len));
      var sum := Add(addition0, addition1);
      NumAddAt(r, i, sum, if b[i] then Num(a) else 0);
      NumTakeTimes(Num(a), b, i);
      r := WriteSlice(r, i, sum);
    }
    assert b[..len] == b;
  }

  /** Which widths are worth splitting. */
  predicate UseKaratsuba(len: nat) {
    if len == 21 then false else len > 19
  }

  method MulByCutOff(a: seq<bool>, b: seq<bool>) returns (r: seq<bool>)
    requires |a| == |b|
    ensures |r| == 2 * |a| && Num(r) == Num(a) * Num(b)
    decreases |a|, 2
  {
    if UseKaratsuba(|a|) {
      r := MulKaratsuba(a, b);
    } else {
      r := MulNaive(a, b);
    }
  }

  method MulKaratsuba(a: seq<bool>, b: seq<bool>) returns (r: seq<bool>)
    requires |a| == |b|
    ensures |r| == 2 * |a| && Num(r) == Num(a) * Num(b)
    decreases |a|, 1
  {
    hide Num, Pow2;
    var len := |a|;
    if len < 5 {
      r := MulNaive(a, b);
      return;
    }
    var len0 := len / 2;
    var a0, a1 := a[..len0], a[len0..];
    var b0, b1 := b[..len0], b[len0..];
    var sq0 := MulByCutOff(a0, b0);
    var sq1 := MulByCutOff(a1, b1);
    var cross := CrossTerm(a, b, len0, sq0, sq1);
    r := Assemble(a, b, len0, sq0, cross, sq1);
  }

  /** The cross term: the product of the sums of the halves, less the two products of the halves. */
  method CrossTerm(a: seq<bool>, b: seq<bool>, len0: nat, sq0: seq<bool>, sq1: seq<bool>) returns (cross: seq<bool>)
    requires |a| == |b| >= 5 && len0 == |a| / 2
    requires |sq0| == 2 * len0 && |sq1| == 2 * (|a| - len0)
    requires Num(sq0) == Num(a[..len0]) * Num(b[..len0]) && Num(sq1) == Num(a[len0..]) * Num(b[len0..])
    ensures |cross| == |a| + 1
    ensures Num(cross) == Num(a[..len0]) * Num(b[len0..]) + Num(a[len0..]) * Num(b[..len0])
    decreases |a|, 0
  {
    hide Num, Pow2;
    var len, len1 := |a|, |a| - len0;
    var a0, a1 := a[..len0], a[len0..];
    var b0, b1 := b[..len0], b[len0..];
    var extA0, extB0, extSq0 := a0, b0, sq0;
    if len0 < len1 {
      NumPush(a0, false);
      NumPush(b0, false);
      NumPush(sq0, false);
      NumPush(sq0 + [false], false);
      extA0, extB0, extSq0 := a0 + [false], b0 + [false], sq0 + [false] + [false];
    }
    var sumA := Add(extA0, a1);
    var sumB := Add(extB0, b1);
    var sqSum := Add(extSq0, sq1);
    NumPush(sqSum, false);
    sqSum := sqSum + [false];
    var sumMul := MulByCutOff(sumA, sumB);
    CrossSum(Num(a0), Num(a1), Num(b0), Num(b1), Num(sumMul), Num(sqSum));
    var crossFull := SubWithoutBorrow(sumMul, sqSum);
    cross := crossFull[..len + 1];
    CrossFits(a, b, len0, crossFull, len + 1);
  }

  /** The slice-by-slice assembly of the result from the two squares and the cross term. */
  method Assemble(a: seq<bool>, b: seq<bool>, len0: nat, sq0: seq<bool>, cross: seq<bool>, sq1: seq<bool>)
    returns (r: seq<bool>)
    requires |a| == |b| >= 5 && len0 == |a| / 2
    requires |sq0| == 2 * len0 && |cross| == |a| + 1 && |sq1| == 2 * (|a| - len0)
    requires Num(sq0) == Num(a[..len0]) * Num(b[..len0]) && Num(sq1) == Num(a[len0..]) * Num(b[len0..])
    requires Num(cross) == Num(a[..len0]) * Num(b[len0..]) + Num(a[len0..]) * Num(b[..len0])
    ensures |r| == 2 * |a| && Num(r) == Num(a) * Num(b)
  {
    hide Num, Pow2, WriteSlice;
    var len, len1 := |a|, |a| - len0;
    r := Zeros(len * 2);
    NumZeros(r);
    NumWriteLow(r, sq0);
    r := WriteSlice(r, 0, sq0);
    var segment := r[len0..len0 + len + 1];
    var newSegment := Add(segment, cross);
    NumAddAt(r, len0, newSegment, Num(cross));
    r := WriteSlice(r, len0, newSegment);
    Recombine(a, b, len0, Num(r), Num(cross));
    var segment2 := r[2 * len0..];
    var newSegment2 := Add(segment2, sq1);
    TopFits(a, b, r, 2 * len0, newSegment2, Num(sq1));
    r := WriteSlice(r, 2 * len0, newSegment2[..2 * len1]);
  }

  lemma CrossSum(a0: nat, a1: nat, b0: nat, b1: nat, product: nat, squares: nat)
    requires product == (a0 + a1) * (b0 + b1) && squares == a0 * b0 + a1 * b1
    ensures product >= squares && product - squares == a0 * b1 + a1 * b0
  {
    Expand(a0, a1, b0, b1);
  }

  lemma Expand(a0: nat, a1: nat, b0: nat, b1: nat)
    ensures (a0 + a1) * (b0 + b1) == a0 * b0 + a1 * b1 + a0 * b1 + a1 * b0
  {
  }

  /** Writing the low end of an all-zero vector. */
  lemma NumWriteLow(bs: seq<bool>, low: seq<bool>)
    requires |low| <= |bs| && forall j :: 0 <= j < |bs| ==> !bs[j]
    ensures Num(WriteSlice(bs, 0, low)) == Num(low)
  {
    hide Num, Pow2, WriteSlice;
    var high := bs[|low|..];
    assert WriteSlice(bs, 0, low) == low + high;
    NumConcat(low, high);
    NumZeros(high);
  }

  /** The cross term needs one bit more than the factors. */
  lemma CrossFits(a: seq<bool>, b: seq<bool>, len0: nat, full: seq<bool>, n: nat)
    requires |a| == |b| && len0 <= |a| && n == |a| + 1 <= |full|
    requires Num(full) == Num(a[..len0]) * Num(b[len0..]) + Num(a[len0..]) * Num(b[..len0])
    ensures Num(full[..n]) == Num(full)
  {
    hide Num;
    var len1 := |a| - len0;
    NumBound(a[..len0]);
    NumBound(a[len0..]);
    NumBound(b[..len0]);
    NumBound(b[len0..]);
    MulBound(Num(a[..len0]), Pow2(len0), Num(b[len0..]), Pow2(len1));
    MulBound(Num(a[len0..]), Pow2(len1), Num(b[..len0]), Pow2(len0));
    Pow2Add(len0, len1);
    Pow2Add(len1, len0);
    assert Num(full) < Pow2(n);
    LowBitsExact(full, n);
  }

  lemma LowBitsExact(bs: seq<bool>, n: nat)
    requires n <= |bs| && Num(bs) < Pow2(n)
    ensures Num(bs[..n]) == Num(bs)
  {
    hide Num, Pow2;
    NumDivMod(bs, n);
    DivModUnique(Num(bs), Pow2(n), 0, Num(bs));
  }

  /** The three products recombine to the product. */
  lemma Recombine(a: seq<bool>, b: seq<bool>, len0: nat, r: int, cross: nat)
    requires |a| == |b| && len0 <= |a|
    requires cross == Num(a[..len0]) * Num(b[len0..]) + Num(a[len0..]) * Num(b[..len0])
    requires r == Num(a[..len0]) * Num(b[..len0]) + Pow2(len0) * cross
    ensures Num(a) * Num(b) == r + Pow2(2 * len0) * (Num(a[len0..]) * Num(b[len0..]))
  {
    hide Num, Pow2;
    NumSplit(a, len0);
    NumSplit(b, len0);
    Pow2Add(len0, len0);
    KaratsubaIdentity(Num(a[..len0]), Num(a[len0..]), Num(b[..len0]), Num(b[len0..]), Pow2(len0));
  }

  lemma KaratsubaIdentity(a0: nat, a1: nat, b0: nat, b1: nat, x: nat)
    ensures (a0 + x * a1) * (b0 + x * b1) == a0 * b0 + x * (a0 * b1 + a1 * b0) + (x * x) * (a1 * b1)
  {
    calc {
      (a0 + x * a1) * (b0 + x * b1);
      { Expand(a0, x * a1, b0, x * b1); }
      a0 * b0 + (x * a1) * (x * b1) + a0 * (x * b1) + (x * a1) * b0;
      { assert (x * a1) * (x * b1) == (x * x) * (a1 * b1); }
      a0 * b0 + (x * x) * (a1 * b1) + a0 * (x * b1) + (x * a1) * b0;
      { assert a0 * (x * b1) == x * (a0 * b1) && (x * a1) * b0 == x * (a1 * b0); Distribute(x, a0 * b1, a1 * b0); }
      a0 * b0 + x * (a0 * b1 + a1 * b0) + (x * x) * (a1 * b1);
    }
  }

  /** The last addition loses no carry, because the product fits. */
  lemma TopFits(a: seq<bool>, b: seq<bool>, r: seq<bool>, i: nat, sum: seq<bool>, x: nat)
    requires |a| == |b| && |r| == 2 * |a| && i <= |r| && |sum| == |r| - i + 1
    requires Num(sum) == Num(r[i..]) + x
    requires Num(a) * Num(b) == Num(r) + Pow2(i) * x
    ensures Num(WriteSlice(r, i, sum[..|r| - i])) == Num(a) * Num(b)
  {
    hide Num, Pow2;
    var n := |r| - i;
    NumBound(a);
    NumBound(b);
    MulBound(Num(a), Pow2(|a|), Num(b), Pow2(|b|));
    Pow2Add(|a|, |a|);
    NumSplit(r, i);
    Distribute(Pow2(i), Num(r[i..]), x);
    Pow2Add(i, n);
    if Num(sum) >= Pow2(n) {
      MulMonotone(Pow2(n), Num(sum), Pow2(i));
      assert false;
    }
    LowBitsExact(sum, n);
    NumWriteSlice(r, i, sum[..n]);
    assert r[i..i + n] == r[i..];
  }

  /** Multiplication as the field gadgets call it; longer operands are refused. */
  method Mul(a: seq<bool>, b: seq<bool>) returns (r: seq<bool>)
    requires |a| == |b| <= 4000
    ensures |r| == 2 * |a| && Num(r) == Num(a) * Num(b)
  {
    if |a| < 5 {
      r := MulNaive(a, b);
      return;
    }
    r := MulByCutOff(a, b);
  }

  /** Shift-and-add over the ones of a constant. */
  method MulByConstant(a: seq<bool>, c: nat) returns (r: seq<bool>)
    requires c < Pow2(|a|)
    ensures |r| == 2 * |a| && Num(r) == Num(a) * c
  {
    hide Num, Pow2;
    var len := |a|;
    var bits := ToBits(c, len);
    NumToBits(c, len);
    r := Zeros(len * 2);
    NumZeros(r);
    NumZeros(bits[..0]);
    for i := 0 to len
      invariant |r| == 2 * len && Num(r) == Num(a) * Num(bits[..i])
      invariant forall j :: i + len <= j < 2 * len ==> !r[j]
    {
      NumTakeTimes(Num(a), bits, i);
      if bits[i] {
        var sum := Add(a, r[i..i + len]);
        NumAddAt(r, i, sum, Num(a));
        r := WriteSlice(r, i, sum);
      }
    }
    assert bits[..len] == bits;
  }

  // ----- modulo a power of two

  const PER_CHUNK: nat := 8

  /** The constant's ones below `n`, least significant first. */
  method OnesBelow(bits: seq<bool>, n: nat) returns (ones: seq<nat>)
    ensures ones == Ones(bits, n)
  {
    ones := [];
    for i := 0 to |bits|
      invariant ones + OnesFrom(bits, n, i) == Ones(bits, n)
    {
      if i < n && bits[i] {
        assert OnesFrom(bits, n, i) == [i] + OnesFrom(bits, n, i + 1);
        ones := ones + [i];
      }
    }
  }

  function OnesFrom(bits: seq<bool>, n: nat, i: nat): seq<nat>
    decreases |bits| - i
  {
    if i >= |bits| then []
    else if i < n && bits[i] then [i] + OnesFrom(bits, n, i + 1)
    else OnesFrom(bits, n, i + 1)
  }

  function Ones(bits: seq<bool>, n: nat): seq<nat> {
    OnesFrom(bits, n, 0)
  }

  /** The number whose ones are given. */
  function SumOfPowers(ones: seq<nat>): nat {
    if |ones| == 0 then 0 else SumOfPowers(ones[..|ones| - 1]) + Pow2(ones[|ones| - 1])
  }

  lemma SumOfPowersPush(ones: seq<nat>, i: nat)
    ensures SumOfPowers(ones + [i]) == SumOfPowers(ones) + Pow2(i)
  {
    assert (ones + [i])[..|ones|] == ones;
  }

  lemma {:induction false} SumOfPowersCons(i: nat, ones: seq<nat>)
    ensures SumOfPowers([i] + ones) == Pow2(i) + SumOfPowers(ones)
  {
    if |ones| == 0 {
      assert [i] + ones == [] + [i];
      SumOfPowersPush([], i);
    } else {
      var n := |ones| - 1;
      SumOfPowersCons(i, ones[..n]);
      assert [i] + ones == ([i] + ones[..n]) + [ones[n]];
      SumOfPowersPush([i] + ones[..n], ones[n]);
    }
  }

  /** The ones are ascending positions below `n`. */
  predicate Ascending(ones: seq<nat>, n: nat) {
    && (forall j :: 0 <= j < |ones| ==> ones[j] < n)
    && (forall j, k :: 0 <= j < k < |ones| ==> ones[j] < ones[k])
  }

  lemma HighOne(n: nat, i: nat, q: nat) returns (q': nat)
    requires n <= i
    ensures Pow2(n) * q' == Pow2(n) * q + Pow2(i)
  {
    Pow2Add(n, i - n);
    Distribute(Pow2(n), q, Pow2(i - n));
    q' := q + Pow2(i - n);
  }

  lemma {:induction false} OnesSum(bits: seq<bool>, n: nat, i: nat) returns (q: nat)
    requires i <= |bits|
    ensures Num(bits) == Num(bits[..i]) + SumOfPowers(OnesFrom(bits, n, i)) + Pow2(n) * q
    decreases |bits| - i
  {
    hide Num, SumOfPowers;
    if i == |bits| {
      assert bits[..i] == bits;
      SumOfNone();
      q := 0;
    } else {
      q := OnesSum(bits, n, i + 1);
      NumTake(bits, i);
      if bits[i] && i < n {
        SumOfPowersCons(i, OnesFrom(bits, n, i + 1));
      } else if bits[i] {
        q := HighOne(n, i, q);
      }
    }
  }

  lemma SumOfNone()
    ensures SumOfPowers([]) == 0
  {
  }

  lemma {:induction false} OnesAscending(bits: seq<bool>, n: nat, i: nat)
    requires i <= |bits|
    ensures Ascending(OnesFrom(bits, n, i), n)
    ensures forall j :: 0 <= j < |OnesFrom(bits, n, i)| ==> OnesFrom(bits, n, i)[j] >= i
    decreases |bits| - i
  {
    if i < |bits| {
      OnesAscending(bits, n, i + 1);
    }
  }

  /** No addition at `ones` of a number of `len` bits reaches bit `j`. */
  predicate OutOfReach(ones: seq<nat>, len: nat, j: nat) {
    forall k :: 0 <= k < |ones| ==> ones[k] + len < j
  }

  /** The accumulator: `a` times the ones so far modulo 2^|r|, and zero above what they can reach. */
  ghost predicate Accumulated(a: seq<bool>, r: seq<bool>, ones: seq<nat>) {
    && Num(r) == Num(a) * SumOfPowers(ones) % Pow2(|r|)
    && forall j :: 0 <= j < |r| && OutOfReach(ones, |a|, j) ==> !r[j]
  }

  lemma SumSplits(x: nat, inc: nat, x': nat, m: nat, q: nat, product: nat)
    requires m > 0 && x == product % m && x' < m
    requires x + inc == x' + m * q
    ensures x' == (product + inc) % m
  {
    Distribute(m, product / m, q);
    DivModUnique(product + inc, m, product / m + q, x');
  }

  /** Adding the shifted `a` with the carry dropped at the top, as an exact equation. */
  lemma TopSlice(r: seq<bool>, i: nat, a: seq<bool>, sum: seq<bool>, r': seq<bool>) returns (q: nat)
    requires i <= |r| && |r| - i <= |a| && |sum| == |r| - i + 1
    requires Num(sum) == Num(a[..|r| - i]) + Num(r[i..])
    requires r' == r[..i] + sum[..|r| - i]
    ensures Num(r) + Pow2(i) * Num(a) == Num(r') + Pow2(|r|) * q
  {
    hide Num, Pow2;
    var n := |r| - i;
    NumSplit(r, i);
    NumSplit(a, n);
    NumSplit(sum, n);
    NumConcat(r[..i], sum[..n]);
    Pow2Add(i, n);
    q := Num(a[n..]) + Num(sum[n..]);
    TopSliceIdentity(Pow2(i), Pow2(n), Num(r[i..]), Num(a[..n]), Num(a[n..]), Num(sum[..n]), Num(sum[n..]));
  }

  lemma TopSliceIdentity(x: nat, y: nat, h: nat, lo: nat, hi: nat, sumLo: nat, sumHi: nat)
    requires lo + h == sumLo + y * sumHi
    ensures x * h + x * (lo + y * hi) == x * sumLo + x * y * (hi + sumHi)
  {
    assert x * h + x * (lo + y * hi) == x * (sumLo + y * sumHi + y * hi) by {
      Distribute(x, h, lo + y * hi);
    }
    Distribute(y, hi, sumHi);
    Distribute(x, sumLo, y * (hi + sumHi));
    assert x * (y * (hi + sumHi)) == x * y * (hi + sumHi);
  }

  /** Adds `a`, shifted to each of the given positions, to the accumulator; one child component does this. */
  method AddChunk(a: seq<bool>, prev: seq<bool>, chunk: seq<nat>, ghost ones: seq<nat>) returns (r: seq<bool>)
    requires |a| > 0 && Accumulated(a, prev, ones) && Ascending(ones + chunk, |prev|)
    ensures |r| == |prev| && Accumulated(a, r, ones + chunk)
  {
    var power := |prev|;
    r := prev;
    assert ones + chunk[..0] == ones;
    for t := 0 to |chunk|
      invariant |r| == power && Accumulated(a, r, ones + chunk[..t])
    {
      hide Num, Pow2, Accumulated;
      var i := chunk[t];
      assert i == (ones + chunk)[|ones| + t];
      ghost var was := r;
      var numberOfBits := if power - i < |a| then power - i else |a|;
      var sum := Add(a[..numberOfBits], r[i..i + numberOfBits]);
      if i + numberOfBits < power {
        r := WriteSlice(r, i, sum);
      } else {
        r := WriteSlice(r, i, sum[..numberOfBits]);
      }
      AscendingAt(ones, chunk, t, power);
      AccumulatedStep(a, was, ones + chunk[..t], i, sum, r);
      assert ones + chunk[..t + 1] == ones + chunk[..t] + [i];
    }
    assert chunk[..|chunk|] == chunk;
  }

  lemma AscendingAt(ones: seq<nat>, chunk: seq<nat>, t: nat, n: nat)
    requires Ascending(ones + chunk, n) && t < |chunk|
    ensures forall j :: 0 <= j < |ones| + t ==> (ones + chunk[..t])[j] < chunk[t]
  {
    forall j | 0 <= j < |ones| + t
      ensures (ones + chunk[..t])[j] < chunk[t]
    {
      assert (ones + chunk)[j] < (ones + chunk)[|ones| + t];
    }
  }

  lemma AccumulatedStep(a: seq<bool>, r: seq<bool>, ones: seq<nat>, i: nat, sum: seq<bool>, r': seq<bool>)
    requires |a| > 0 && Accumulated(a, r, ones) && i < |r| && forall j :: 0 <= j < |ones| ==> ones[j] < i
    requires var n := if |r| - i < |a| then |r| - i else |a|;
             && |sum| == n + 1 && Num(sum) == Num(a[..n]) + Num(r[i..i + n])
             && r' == if i + n < |r| then WriteSlice(r, i, sum) else WriteSlice(r, i, sum[..n])
    ensures |r'| == |r| && Accumulated(a, r', ones + [i])
  {
    hide Num, Pow2, SumOfPowers, WriteSlice;
    forall j | i + |a| <= j < |r|
      ensures !r[j]
    {
      assert OutOfReach(ones, |a|, j);
    }
    forall j: nat | j < |r'| && OutOfReach(ones + [i], |a|, j)
      ensures !r'[j]
    {
      assert (ones + [i])[|ones|] + |a| < j;
    }
    var product, inc := Num(a) * SumOfPowers(ones), Pow2(i) * Num(a);
    AccumulatedSum(a, r, product, i, sum, r', inc);
    SumOfPowersPush(ones, i);
    PlusTimes(Num(a), SumOfPowers(ones), Pow2(i), SumOfPowers(ones + [i]), product + inc);
  }

  lemma PlusTimes(a: nat, x: nat, y: nat, z: nat, sum: nat)
    requires z == x + y && sum == a * x + y * a
    ensures a * z == sum
  {
  }

  lemma AccumulatedSum(a: seq<bool>, r: seq<bool>, product: nat, i: nat, sum: seq<bool>, r': seq<bool>, inc: nat)
    requires |a| > 0 && i < |r| && Num(r) == product % Pow2(|r|) && inc == Pow2(i) * Num(a)
    requires i + |a| < |r| ==> !r[i + |a|]
    requires var n := if |r| - i < |a| then |r| - i else |a|;
             && |sum| == n + 1 && Num(sum) == Num(a[..n]) + Num(r[i..i + n])
             && r' == if i + n < |r| then WriteSlice(r, i, sum) else WriteSlice(r, i, sum[..n])
    ensures Num(r') == (product + inc) % Pow2(|r|)
  {
    hide Num, Pow2, WriteSlice;
    var q := AddedExactly(a, r, i, sum, r');
    NumBound(r');
    SumSplits(Num(r), inc, Num(r'), Pow2(|r|), q, product);
  }

  lemma AddedExactly(a: seq<bool>, r: seq<bool>, i: nat, sum: seq<bool>, r': seq<bool>) returns (q: nat)
    requires |a| > 0 && i < |r|
    requires i + |a| < |r| ==> !r[i + |a|]
    requires var n := if |r| - i < |a| then |r| - i else |a|;
             && |sum| == n + 1 && Num(sum) == Num(a[..n]) + Num(r[i..i + n])
             && r' == if i + n < |r| then WriteSlice(r, i, sum) else WriteSlice(r, i, sum[..n])
    ensures |r'| == |r| && Num(r) + Pow2(i) * Num(a) == Num(r') + Pow2(|r|) * q
  {
    hide Num, Pow2;
    if i + |a| < |r| {
      assert a[..|a|] == a && r[i..i + |sum| - 1] == r[i..i + |a|];
      NumAddAt(r, i, sum, Num(a));
      q := 0;
    } else {
      assert r[i..|r|] == r[i..];
      q := TopSlice(r, i, a, sum, r');
    }
  }

  /** The product modulo a power of two, eight ones to a child component. */
  method MulByConstantModuloPowerTwo(a: seq<bool>, c: nat, power: nat) returns (r: seq<bool>)
    requires c < Pow2(|a|) && power < 2 * |a|
    ensures |r| == power && Num(r) == Num(a) * c % Pow2(power)
  {
    var bits := ToBits(c, |a|);
    NumToBits(c, |a|);
    var ones := OnesBelow(bits, power);
    OnesAscending(bits, power, 0);
    r := Zeros(power);
    NumZeros(r);
    AccumulatedZero(a, r);
    if ones != [] {
      var start := 0;
      assert ones[..0] == [];
      while start < |ones|
        invariant start <= |ones| && |r| == power && Accumulated(a, r, ones[..start])
      {
        hide Num, Pow2, Accumulated, Ones;
        var end := if start + PER_CHUNK < |ones| then start + PER_CHUNK else |ones|;
        assert ones[..start] + ones[start..end] == ones[..end];
        r := AddChunk(a, r, ones[start..end], ones[..start]);
        start := end;
      }
      assert ones[..|ones|] == ones;
    }
    DropHigh(a, bits, ones, power);
  }

  lemma AccumulatedZero(a: seq<bool>, r: seq<bool>)
    requires forall i :: 0 <= i < |r| ==> !r[i]
    ensures Accumulated(a, r, [])
  {
    hide Num, Pow2;
    NumZeros(r);
    assert SumOfPowers([]) == 0;
    DivModUnique(0, Pow2(|r|), 0, 0);
  }

  /** Ones at or above the power do not count. */
  lemma DropHigh(a: seq<bool>, bits: seq<bool>, ones: seq<nat>, power: nat)
    requires ones == Ones(bits, power)
    ensures Num(a) * SumOfPowers(ones) % Pow2(power) == Num(a) * Num(bits) % Pow2(power)
  {
    var q := OnesSum(bits, power, 0);
    hide Num, Pow2, Ones, SumOfPowers;
    NumZeros(bits[..0]);
    ModShift(Num(a), SumOfPowers(ones), Num(bits), Pow2(power), q);
  }

  lemma ModShift(a: nat, x: nat, y: nat, m: nat, q: nat)
    requires m > 0 && y == x + m * q
    ensures a * x % m == a * y % m
  {
    assert a * y == a * x + m * (a * q) by {
      Distribute(a, x, m * q);
    }
    ModAddMultiple(a * x, m, a * y, a * q);
  }
}
