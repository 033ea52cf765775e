/** Masks and selection on bit vectors. */
module BigIntSelect {
  import opened Gates
  import opened Bits
  import opened Basic

  /** `a` if `s` is set, otherwise `b`. */
  method Select(a: seq<bool>, b: seq<bool>, s: bool) returns (r: seq<bool>)
    requires |a| == |b|
    ensures r == if s then a else b
  {
    r := [];
    for i := 0 to |a|
      invariant |r| == i && forall j :: 0 <= j < i ==> r[j] == if s then a[j] else b[j]
    {
      var g := Selector(a[i], b[i], s);
      r := r + [g];
    }
  }

  method SelfOrZero(a: seq<bool>, s: bool) returns (r: seq<bool>)
    ensures r == if s then a else Zeros(|a|)
    ensures Num(r) == if s then Num(a) else 0
  {
    r := [];
    for i := 0 to |a|
      invariant |r| == i && forall j :: 0 <= j < i ==> r[j] == (a[j] && s)
    {
      r := r + [Truth(And, a[i], s)];
    }
    NumZeros(Zeros(|a|));
  }

  /** The same with an inverted selector. */
  method SelfOrZeroInv(a: seq<bool>, s: bool) returns (r: seq<bool>)
    ensures r == if s then Zeros(|a|) else a
    ensures Num(r) == if s then 0 else Num(a)
  {
    r := [];
    for i := 0 to |a|
      invariant |r| == i && forall j :: 0 <= j < i ==> r[j] == (a[j] && !s)
    {
      r := r + [Truth(AndVariant(false, true, false), a[i], s)];
    }
    NumZeros(Zeros(|a|));
  }

  /** The table entry that the selector bits number, column by column. */
  method Multiplex(a: seq<seq<bool>>, s: seq<bool>, w: nat) returns (r: seq<bool>)
    requires |s| == w && |a| == Pow2(w)
    requires forall i :: 0 <= i < |a| ==> |a[i]| == |a[0]|
    ensures Num(s) < |a| && r == a[Num(s)]
  {
    r := [];
    NumBound(s);
    for i := 0 to |a[0]|
      invariant |r| == i && forall j :: 0 <= j < i ==> r[j] == a[Num(s)][j]
    {
      var column := seq(|a|, k requires 0 <= k < |a| => a[k][i]);
      var g := Multiplexer(column, s, w);
      r := r + [g];
    }
  }

  /** The position of the lowest one. */
  method FirstOne(bits: seq<bool>) returns (i: nat)
    requires Num(bits) > 0
    ensures i < |bits| && bits[i] && forall j :: 0 <= j < i ==> !bits[j]
  {
    NumZeroBits(bits);
    i := 0;
    while !bits[i]
      invariant i < |bits| && forall j :: 0 <= j < i ==> !bits[j]
      decreases |bits| - i
    {
      if i == |bits| - 1 {
        assert false;
      }
      i := i + 1;
    }
  }
}

/** Comparisons of bit vectors. */
module BigIntCompare {
  import opened Gates
  import opened Bits
  import opened BigIntSelect
  import opened BigIntAdd

  method Equal(a: seq<bool>, b: seq<bool>) returns (r: bool)
    requires |a| == |b| > 0
    ensures r <==> Num(a) == Num(b)
  {
    var x := [];
    for i := 0 to |a|
      invariant |x| == i && forall j :: 0 <= j < i ==> x[j] == (a[j] != b[j])
    {
      x := x + [Truth(Xor, a[i], b[i])];
    }
    r := EqualConstant(x, 0);
    NumZeroBits(x);
    if Num(a) == Num(b) {
      NumInjective(a, b);
    }
    assert (forall j :: 0 <= j < |x| ==> !x[j]) ==> a == b;
  }

  method EqualConstant(a: seq<bool>, b: nat) returns (r: bool)
    requires |a| > 0 && b < Pow2(|a|)
    ensures r <==> Num(a) == b
  {
    if b == 0 {
      r := EqualZero(a);
      return;
    }
    var bits := ToBits(b, |a|);
    NumToBits(b, |a|);
    var one := FirstOne(bits);
    r := a[one];
    for i := 0 to |a|
      invariant r <==> a[one] && forall j :: 0 <= j < i ==> a[j] == bits[j]
    {
      if i != one {
        r := Truth(AndVariant(!bits[i], false, false), a[i], r);
      }
    }
    if r {
      assert a == bits;
    } else if Num(a) == b {
      NumInjective(a, bits);
    }
  }

  /** The first two bits are compared with each other, then all but the first with zero. */
  method EqualZero(a: seq<bool>) returns (r: bool)
    requires |a| > 0
    ensures r <==> Num(a) == 0
  {
    NumZeroBits(a);
    if |a| == 1 {
      r := Truth(Xor, a[0], true);
      return;
    }
    r := Truth(Xnor, a[0], a[1]);
    for i := 1 to |a|
      invariant r <==> a[0] == a[1] && forall j :: 1 <= j < i ==> !a[j]
    {
      r := Truth(AndVariant(true, false, false), a[i], r);
    }
  }

  /** Inverting all bits. */
  method Inverted(a: seq<bool>) returns (r: seq<bool>)
    ensures |r| == |a| && Num(r) == Pow2(|a|) - 1 - Num(a)
  {
    r := [];
    for i := 0 to |a|
      invariant |r| == i && Num(r) == Pow2(i) - 1 - Num(a[..i])
    {
      var w := Truth(Xor, a[i], true);
      NumTake(a, i);
      NumPush(r, w);
      r := r + [w];
    }
    assert a[..|a|] == a;
  }

  method GreaterThan(a: seq<bool>, b: seq<bool>) returns (r: bool)
    requires |a| == |b| > 0
    ensures r <==> Num(a) > Num(b)
  {
    var notB := Inverted(b);
    var sum := Add(a, notB);
    NumBound(sum[..|a|]);
    r := sum[|sum| - 1];
  }

  method LessThanConstant(a: seq<bool>, b: nat) returns (r: bool)
    requires 0 < b < Pow2(|a|)
    ensures r <==> Num(a) < b
  {
    var notA := Inverted(a);
    var sum := AddConstant(notA, b);
    NumBound(sum[..|a|]);
    r := sum[|sum| - 1];
  }
}
