/** Shares of a polynomial, commitments to them, and their verification. */
module VsssShares {
  import opened Bits
  import opened Modular
  import opened Polynomials
  import opened Interpolation
  import opened VsssCore

  // ----- shares

  /** The shares are the points of every polynomial that extends the given values. */
  ghost predicate IsSharing(q: nat, ys: seq<int>, shares: seq<Share>)
    requires q > 0
  {
    forall p: Poly :: Extends(q, p, ys) ==> forall i :: 0 <= i < |shares| ==> shares[i] == (i, Eval(p, i) % q)
  }

  /** A polynomial through the given values; its degree is below their number. */
  lemma ExtensionExists(q: nat, ys: seq<int>) returns (p: Poly)
    requires Prime(q) && |ys| <= q
    ensures |p| == |ys| && Extends(q, p, ys)
  {
    RangeDistinct(|ys|);
    hide Through;
    p := InterpolantExists(q, Range(|ys|), ys);
  }

  lemma {:induction false} Large(n: nat)
    ensures n <= Pow2(n)
  {
    if n > 0 {
      Large(n - 1);
    }
  }

  /** The given values are the first shares; the others are evaluated. */
  method Shares(q: nat, values: seq<nat>, numShares: nat) returns (shares: seq<Share>)
    requires Prime(q) && 1 <= |values| <= numShares <= q && forall i :: 0 <= i < |values| ==> values[i] < q
    ensures |shares| == numShares && IsSharing(q, values, shares)
  {
    PrimePositive(q);
    ScalarsGenerated(q);
    Large(q);
    forall i | 0 <= i < |values|
      ensures values[i] == Residues(q)(values[i])
    {
      DivModUnique(values[i], q, 0, values[i]);
    }
    var suffix := EvalAtSuffixPoints(Scalars(q), values, numShares - |values|, false, q, q, Residues(q), values);
    hide Prime, IsGenerated, Extends, Eval, Pow2;
    shares := [];
    for i := 0 to numShares
      invariant |shares| == i
      invariant IsSharing(q, values, shares)
    {
      var y := if i < |values| then values[i] else ReducedNat(q, suffix[i - |values|]);
      forall p: Poly | Extends(q, p, values)
        ensures y == Eval(p, i) % q
      {
        if i < |values| {
          FirstValues(q, p, values, i);
        } else {
          var e := Eval(p, |values| + (i - |values|));
          assert suffix[i - |values|] == Residues(q)(e);
          Idempotent(q, e);
        }
      }
      shares := shares + [(i, y)];
    }
  }

  function ReducedNat(q: nat, x: int): nat
    requires q > 0
  {
    x % q
  }

  lemma Idempotent(q: nat, x: int)
    requires q > 0
    ensures x % q % q == x % q
  {
    DivModUnique(x % q, q, 0, x % q);
  }

  lemma FirstValues(q: nat, p: Poly, ys: seq<nat>, i: nat)
    requires q > 0 && Extends(q, p, ys) && i < |ys| && ys[i] < q
    ensures ys[i] == Eval(p, i) % q
  {
    hide Cong, Eval;
    assert Range(|ys|)[i] == i;
    CongSymmetric(q, Eval(p, i), ys[i]);
    CongIsMod(q, ys[i], Eval(p, i));
  }

  /**
   * Any shares, as many as there were values, determine all the others: whatever interpolates
   * them has the other shares as its values.
   */
  lemma AnySharesRecover(q: nat, ys: seq<int>, shares: seq<Share>, known: seq<Share>, missing: seq<nat>,
                         values: seq<nat>)
    requires Prime(q) && IsSharing(q, ys, shares) && |ys| <= |known| && |shares| <= q
    requires |known| + |missing| == |shares| && Complementary(Xs(known), missing)
    requires forall i :: 0 <= i < |known| ==> known[i] in shares
    requires forall j :: 0 <= j < |missing| ==> missing[j] < |shares|
    requires Interpolates(q, known, missing, values)
    ensures forall j :: 0 <= j < |missing| ==> shares[missing[j]] == (missing[j], values[j])
  {
    ComplementElements(Xs(known), missing);
    var p := ExtensionExists(q, ys);
    hide Prime, Extends, Complementary, Eval, Cong;
    forall i | 0 <= i < |known|
      ensures Cong(q, Eval(p, Xs(known)[i]), Ys(known)[i])
    {
      var k :| 0 <= k < |shares| && shares[k] == known[i];
      assert known[i] == (k, Eval(p, k) % q);
      CongMod(q, Eval(p, k));
    }
    assert Through(q, p, Xs(known), Ys(known));
  }

  // ----- commitments

  /**
   * A multiple of the generator from a table of the multiples of its powers, window by window. Of the
   * last row only the entries that a scalar of `size` bits can reach matter.
   */
  method WindowedMul<G>(g: Group<G>, table: seq<seq<G>>, scalar: nat, window: nat, size: nat,
                        ghost exp: int -> G, ghost q: nat)
    returns (res: G)
    requires q > 0 && IsGenerated(g, exp, q) && window > 0 && 0 < size && scalar < Pow2(size)
    requires |table| == (size + window - 1) / window
    requires forall o :: 0 <= o < |table| ==> TableRow(table[o], window, o, size, exp)
    ensures res == exp(scalar)
  {
    hide Num, Pow2, Multiplicative, Subtractive, Injective, TableRow;
    var bits := ToBits(scalar, size);
    NumToBits(scalar, size);
    RowEntry(table[0], window, 0, size, 0, exp);
    res := table[0][0];
    NumZeros(bits[..0]);
    ghost var low: nat := 0;
    for outer := 0 to |table|
      invariant low == (if outer * window < size then outer * window else size) && res == exp(Num(bits[..low]))
      invariant outer < |table| ==> low == outer * window
    {
      var inner: nat := 0;
      WindowFits(outer, window, size, |table|);
      NumZeros(bits[low..low]);
      for i := 0 to window
        invariant inner == Num(bits[low..Upper(low, i, size)])
      {
        if outer * window + i < size {
          NumSliceTake(bits, low, low + i);
          if bits[outer * window + i] {
            inner := inner + Pow2(i);
          }
        }
      }
      var upper := Upper(low, window, size);
      WindowBound(bits, low, upper, window);
      NumSlice(bits, low, upper);
      NumBound(bits[..upper]);
      Pow2Monotone(upper, size);
      RowEntry(table[outer], window, outer, size, inner, exp);
      assert g.add(exp(Num(bits[..low])), exp(inner * Pow2(outer * window)))
          == exp(Num(bits[..low]) + inner * Pow2(outer * window));
      res := g.add(res, table[outer][inner]);
      low := upper;
    }
    LastWindow(window, size, |table|);
    assert bits[..size] == bits;
  }

  /** The multiples by v * 2^(o * window) for the v of `window` bits that do not exceed `size` bits. */
  ghost predicate TableRow<G>(row: seq<G>, window: nat, o: nat, size: nat, exp: int -> G) {
    forall v :: 0 <= v < Pow2(window) && v * Pow2(o * window) < Pow2(size) ==>
      v < |row| && row[v] == exp(v * Pow2(o * window))
  }

  lemma RowEntry<G>(row: seq<G>, window: nat, o: nat, size: nat, v: nat, exp: int -> G)
    requires TableRow(row, window, o, size, exp) && v < Pow2(window)
    requires v == 0 || v * Pow2(o * window) < Pow2(size)
    ensures v < |row| && row[v] == exp(v * Pow2(o * window))
  {
    if v == 0 {
      assert 0 * Pow2(o * window) < Pow2(size);
    }
  }

  function Upper(low: nat, i: nat, size: nat): nat {
    if low + i < size then low + i else size
  }

  lemma WindowFits(outer: nat, window: nat, size: nat, count: nat)
    requires window > 0 && size > 0 && count == (size + window - 1) / window && outer < count
    ensures outer * window < size && (outer + 1) * window == outer * window + window
    ensures outer + 1 < count ==> (outer + 1) * window < size
  {
    assert count * window <= size + window - 1;
    MulMonotone(outer + 1, count, window);
    if outer + 1 < count {
      MulMonotone(outer + 2, count, window);
      assert (outer + 2) * window == (outer + 1) * window + window;
    }
  }

  lemma LastWindow(window: nat, size: nat, count: nat)
    requires window > 0 && size > 0 && count == (size + window - 1) / window
    ensures count * window >= size
  {
  }

  lemma NumSliceTake(bits: seq<bool>, low: nat, i: nat)
    requires low <= i < |bits|
    ensures Num(bits[low..i + 1]) == Num(bits[low..i]) + if bits[i] then Pow2(i - low) else 0
  {
    assert bits[low..i + 1] == bits[low..i] + [bits[i]];
    NumPush(bits[low..i], bits[i]);
  }

  lemma NumSlice(bits: seq<bool>, low: nat, upper: nat)
    requires low <= upper <= |bits|
    ensures Num(bits[..upper]) == Num(bits[..low]) + Num(bits[low..upper]) * Pow2(low)
  {
    hide Num, Pow2;
    NumSplit(bits[..upper], low);
    assert bits[..upper][..low] == bits[..low] && bits[..upper][low..] == bits[low..upper];
  }

  lemma WindowBound(bits: seq<bool>, low: nat, upper: nat, window: nat)
    requires low <= upper <= |bits| && upper <= low + window
    ensures Num(bits[low..upper]) < Pow2(window)
  {
    NumBound(bits[low..upper]);
    Pow2Monotone(upper - low, window);
  }

  datatype Verdict = Accepted | Rejected

  /** Recomputes the share commitments from the commitments to the polynomial. */
  method Verify<G(==)>(g: Group<G>, shareCommits: seq<G>, polynomialCommits: seq<G>, q: nat, bitLen: nat,
                       ghost exp: int -> G, ghost ys: seq<int>)
    returns (verdict: Verdict)
    requires Prime(q) && 1 <= |polynomialCommits| <= |shareCommits| <= q <= Pow2(bitLen) && IsGenerated(g, exp, q)
    requires |ys| == |polynomialCommits| && forall i :: 0 <= i < |ys| ==> polynomialCommits[i] == exp(ys[i])
    ensures forall p: Poly :: Extends(q, p, ys) ==>
              (verdict == Accepted <==> forall i :: 0 <= i < |shareCommits| ==> shareCommits[i] == exp(Eval(p, i)))
  {
    var known := |polynomialCommits|;
    var unknown := EvalAtSuffixPoints(g, polynomialCommits, |shareCommits| - known, true, q, bitLen, exp, ys);
    PrimePositive(q);
    CommitsMatch(g, exp, q, ys, polynomialCommits);
    hide Prime, IsGenerated, Extends, Eval, Pow2;
    verdict := Accepted;
    for i := 0 to |shareCommits|
      invariant verdict == Accepted
      invariant forall p: Poly :: Extends(q, p, ys) ==> forall j :: 0 <= j < i ==> shareCommits[j] == exp(Eval(p, j))
    {
      var recomputed := if i < known then polynomialCommits[i] else unknown[i - known];
      forall p: Poly | Extends(q, p, ys)
        ensures recomputed == exp(Eval(p, i))
      {
        if i >= known {
          assert unknown[i - known] == exp(Eval(p, known + (i - known)));
        }
      }
      if shareCommits[i] != recomputed {
        return Rejected;
      }
    }
  }

  lemma CommitsMatch<G>(g: Group<G>, exp: int -> G, q: nat, ys: seq<int>, commits: seq<G>)
    requires q > 0 && IsGenerated(g, exp, q)
    requires |ys| == |commits| && forall i :: 0 <= i < |ys| ==> commits[i] == exp(ys[i])
    ensures forall p: Poly :: Extends(q, p, ys) ==> forall i :: 0 <= i < |ys| ==> commits[i] == exp(Eval(p, i))
  {
    hide Cong, Eval;
    forall p: Poly, i: int | Extends(q, p, ys) && 0 <= i < |ys|
      ensures commits[i] == exp(Eval(p, i))
    {
      assert Range(|ys|)[i] == i && Cong(q, Eval(p, i), ys[i]);
    }
  }
}
