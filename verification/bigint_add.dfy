/** Addition, subtraction and shifts of bit vectors of any width. */
module BigIntAdd {
  import opened Gates
  import opened Bits
  import opened Basic
  import opened BigIntSelect

  method Add(a: seq<bool>, b: seq<bool>) returns (r: seq<bool>)
    requires |a| == |b| > 0
    ensures |r| == |a| + 1 && Num(r) == Num(a) + Num(b)
  {
    var result, carry := HalfAdder(a[0], b[0]);
    r := [result];
    NumTake(a, 0);
    NumTake(b, 0);
    NumTake(r, 0);
    assert r[..1] == r;
    for i := 1 to |a|
      invariant |r| == i
      invariant Num(r) + (if carry then Pow2(i) else 0) == Num(a[..i]) + Num(b[..i])
    {
      var result, newCarry := FullAdder(a[i], b[i], carry);
      NumTake(a, i);
      NumTake(b, i);
      NumPush(r, result);
      r, carry := r + [result], newCarry;
    }
    assert a[..|a|] == a && b[..|b|] == b;
    NumPush(r, carry);
    r := r + [carry];
  }

  /** The sum modulo the width. */
  method AddWithoutCarry(a: seq<bool>, b: seq<bool>) returns (r: seq<bool>)
    requires |a| == |b| > 0
    ensures |r| == |a| && Num(r) == (Num(a) + Num(b)) % Pow2(|a|)
  {
    var c := Add(a, b);
    NumDivMod(c, |a|);
    r := c[..|c| - 1];
  }

  /** Adding a nonzero constant: below its lowest one the input bits are passed through. */
  method AddConstant(a: seq<bool>, b: nat) returns (r: seq<bool>)
    requires 0 < b < Pow2(|a|)
    ensures |r| == |a| + 1 && Num(r) == Num(a) + b
  {
    hide Num;
    var bits := ToBits(b, |a|);
    NumToBits(b, |a|);
    var firstOne := FirstOne(bits);
    NumZeros(bits[..firstOne]);
    r := [];
    var carry := false;
    for i := 0 to |a|
      invariant |r| == i
      invariant i <= firstOne ==> r == a[..i]
      invariant i > firstOne ==> Num(r) + (if carry then Pow2(i) else 0) == Num(a[..i]) + Num(bits[..i])
    {
      NumTake(a, i);
      NumTake(bits, i);
      if i < firstOne {
        r := r + [a[i]];
      } else if i == firstOne {
        var wire := Truth(Xor, a[i], true);
        NumPush(r, wire);
        r, carry := r + [wire], a[i];
      } else if bits[i] {
        var wire1, wire2 := Truth(Xnor, a[i], carry), Truth(Or, a[i], carry);
        NumPush(r, wire1);
        r, carry := r + [wire1], wire2;
      } else {
        var wire1, wire2 := Truth(Xor, a[i], carry), Truth(And, a[i], carry);
        NumPush(r, wire1);
        r, carry := r + [wire1], wire2;
      }
    }
    assert a[..|a|] == a && bits[..|a|] == bits;
    NumPush(r, carry);
    r := r + [carry];
  }

  method AddConstantWithoutCarry(a: seq<bool>, b: nat) returns (r: seq<bool>)
    requires 0 < b < Pow2(|a|)
    ensures |r| == |a| && Num(r) == (Num(a) + b) % Pow2(|a|)
  {
    var c := AddConstant(a, b);
    NumDivMod(c, |a|);
    r := c[..|c| - 1];
  }

  /** The difference modulo the width, and as last bit whether it was negative. */
  method Sub(a: seq<bool>, b: seq<bool>) returns (r: seq<bool>)
    requires |a| == |b| > 0
    ensures |r| == |a| + 1
    ensures r[|a|] <==> Num(a) < Num(b)
    ensures Num(r[..|a|]) == Num(a) - Num(b) + if r[|a|] then Pow2(|a|) else 0
  {
    var result, borrow := HalfSubtracter(a[0], b[0]);
    r := [result];
    NumTake(a, 0);
    NumTake(b, 0);
    NumTake(r, 0);
    assert r[..1] == r;
    for i := 1 to |a|
      invariant |r| == i
      invariant Num(r) - (if borrow then Pow2(i) else 0) == Num(a[..i]) - Num(b[..i])
    {
      var result, newBorrow := FullSubtracter(a[i], b[i], borrow);
      NumTake(a, i);
      NumTake(b, i);
      NumPush(r, result);
      r, borrow := r + [result], newBorrow;
    }
    assert a[..|a|] == a && b[..|b|] == b;
    NumBound(r);
    r := r + [borrow];
    assert r[..|a|] == r[..|r| - 1];
  }

  method SubWithoutBorrow(a: seq<bool>, b: seq<bool>) returns (r: seq<bool>)
    requires |a| == |b| > 0
    ensures |r| == |a|
    ensures Num(r) == Num(a) - Num(b) + if Num(a) < Num(b) then Pow2(|a|) else 0
  {
    var c := Sub(a, b);
    r := c[..|c| - 1];
  }

  method Double(a: seq<bool>) returns (r: seq<bool>)
    ensures |r| == |a| + 1 && Num(r) == 2 * Num(a)
  {
    NumCons(false, a);
    r := [false] + a;
  }

  method DoubleWithoutOverflow(a: seq<bool>) returns (r: seq<bool>)
    requires |a| > 0
    ensures |r| == |a| && Num(r) == 2 * Num(a) % Pow2(|a|)
  {
    NumCons(false, a);
    NumDivMod([false] + a, |a|);
    r := [false] + a[..|a| - 1];
    assert r == ([false] + a)[..|a|];
  }

  method Half(a: seq<bool>) returns (r: seq<bool>)
    requires |a| > 0
    ensures r == a[1..] + [false] && Num(r) == Num(a) / 2 && (a[0] <==> Num(a) % 2 == 1)
  {
    NumUncons(a);
    NumPush(a[1..], false);
    r := a[1..] + [false];
  }

  // ----- the odd part

  /** The first `i` bits hold a one. */
  predicate Seen(a: seq<bool>, i: nat)
    requires i <= |a|
  {
    exists j :: 0 <= j < i && a[j]
  }

  lemma SeenStep(a: seq<bool>, i: nat)
    requires i < |a|
    ensures Seen(a, i + 1) <==> Seen(a, i) || a[i]
  {
    if Seen(a, i) {
      var j :| 0 <= j < i && a[j];
      assert 0 <= j < i + 1 && a[j];
    }
  }

  /**
   * Splits `a` into its odd part and the largest power of two that divides it. Zero gives two
   * zeros.
   */
  method OddPart(a: seq<bool>) returns (odd: seq<bool>, k: seq<bool>)
    requires |a| > 0
    ensures |odd| == |k| == |a|
    ensures Num(a) == 0 ==> Num(odd) == 0 && Num(k) == 0
    ensures Num(a) > 0 ==>
              Num(odd) % 2 == 1 && Num(odd) * Num(k) == Num(a) && exists t :: 0 <= t < |a| && Num(k) == Pow2(t)
  {
    hide Num;
    var select := [a[0]];
    assert Seen(a, 1) <==> a[0] by { SeenStep(a, 0); }
    for i := 1 to |a|
      invariant |select| == i && forall j :: 0 <= j < i ==> (select[j] <==> Seen(a, j + 1))
    {
      SeenStep(a, i);
      select := select + [Truth(Or, select[i - 1], a[i])];
    }
    k := [a[0]];
    for i := 1 to |a|
      invariant |k| == i && k[0] == a[0]
      invariant forall j :: 0 < j < i ==> (k[j] <==> !Seen(a, j) && a[j])
    {
      k := k + [Truth(AndVariant(true, false, false), select[i - 1], a[i])];
    }
    odd := a;
    ghost var t: nat := 0;
    for i := 0 to |a|
      invariant t <= i && |odd| == |a|
      invariant Num(odd) * Pow2(t) == Num(a)
      invariant !Seen(a, i) ==> t == i && odd == a[i..] + Zeros(i)
      invariant Seen(a, i) ==> t < i && IsLowest(a, t) && Num(odd) % 2 == 1
    {
      var halved := Half(odd);
      SeenStep(a, i);
      if !select[i] {
        Pow2Add(t, 1);
        NumUncons(odd);
        assert odd[0] == a[i];
        assert Num(odd) == 2 * Num(halved);
        Twice(Num(halved), Pow2(t));
        assert halved == a[i + 1..] + Zeros(i + 1);
        t := t + 1;
      } else if !Seen(a, i) {
        assert odd[0] == a[i];
        NumUncons(odd);
        assert IsLowest(a, t);
      }
      odd := Select(odd, halved, select[i]);
    }
    if Seen(a, |a|) {
      LowestPower(a, k, t);
      NumZeroBits(a);
    } else {
      NumZeros(a);
      NumZeros(k);
      NumZeros(odd);
    }
  }

  ghost predicate IsLowest(a: seq<bool>, t: nat) {
    t < |a| && a[t] && !Seen(a, t)
  }

  lemma LowestPower(a: seq<bool>, k: seq<bool>, t: nat)
    requires IsLowest(a, t) && |k| == |a| && k[0] == a[0]
    requires forall j :: 0 < j < |a| ==> (k[j] <==> !Seen(a, j) && a[j])
    ensures Num(k) == Pow2(t)
  {
    hide Num;
    NumSplit(k, t + 1);
    NumZeros(k[..t]);
    assert forall j :: t < j < |a| ==> Seen(a, j);
    NumZeros(k[t + 1..]);
    NumTake(k, t);
  }
}
