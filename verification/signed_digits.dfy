/**
 * Signed-digit recoding: sums and differences of powers of two.
 *
 * The recoding replaces every run of two or more ones by two digits. That keeps the number, but it
 * is not always the shortest way to write it: `FewestIff` says for which bit vectors it is.
 */
module SignedDigits {
  import opened Bits

  /** The number that signed binary digits stand for. */
  function SignedNum(ds: seq<int>): int {
    if |ds| == 0 then 0
    else
      var n := |ds| - 1;
      SignedNum(ds[..n]) + ds[n] * Pow2(n)
  }

  lemma {:induction false} SignedUpdate(ds: seq<int>, i: nat, d: int)
    requires i < |ds|
    ensures SignedNum(ds[i := d]) == SignedNum(ds) + (d - ds[i]) * Pow2(i)
  {
    var n := |ds| - 1;
    if i < n {
      SignedUpdate(ds[..n], i, d);
      assert ds[i := d][..n] == ds[..n][i := d];
    } else {
      assert ds[i := d][..n] == ds[..n];
      Distribute(Pow2(i), d, -ds[i]);
    }
  }

  lemma {:induction false} SignedZeros(ds: seq<int>, n: nat)
    requires n <= |ds| && forall j :: n <= j < |ds| ==> ds[j] == 0
    ensures SignedNum(ds) == SignedNum(ds[..n])
    decreases |ds|
  {
    if n < |ds| {
      SignedZeros(ds[..|ds| - 1], n);
      assert ds[..|ds| - 1][..n] == ds[..n];
    } else {
      assert ds[..n] == ds;
    }
  }

  /** A run of ones from l to i. */
  lemma {:induction false} OnesRun(bits: seq<bool>, l: nat, i: nat)
    requires l <= i <= |bits| && forall j :: l <= j < i ==> bits[j]
    ensures Num(bits[..i]) == Num(bits[..l]) + Pow2(i) - Pow2(l)
    decreases i
  {
    if l < i {
      OnesRun(bits, l, i - 1);
      NumTake(bits, i - 1);
    }
  }

  predicate IsDigit(d: int) {
    d == 0 || d == 1 || d == -1
  }

  /** Whether position i is inside a run of ones whose start is remembered. */
  predicate InRun(bits: seq<bool>, l: int, i: nat) {
    l != -1 && i < |bits| && bits[i]
  }

  /** The digits written so far. Every digit is written at most once, on a zero. */
  ghost predicate Recoding(bits: seq<bool>, res: seq<int>, l: int, i: nat) {
    && i <= |bits| && |res| == |bits| + 1 && -1 <= l < i
    && (forall j :: 0 <= j < |res| ==> IsDigit(res[j]))
    && (if InRun(bits, l, i)
        then
          && (forall j :: l <= j <= i ==> bits[j]) && (forall j :: l <= j < |res| ==> res[j] == 0)
          && SignedNum(res) == Num(bits[..l])
        else
          && (forall j :: i < j < |res| ==> res[j] == 0) && (res[i] != 0 ==> i == |bits| || !bits[i])
          && SignedNum(res) == Num(bits[..i]))
  }

  /** One bit of the recoding loop, as a transition. */
  function RecodeStep(bits: seq<bool>, res: seq<int>, l: int, i: nat): (seq<int>, int)
    requires i < |bits| && |res| == |bits| + 1 && -1 <= l < |bits|
  {
    if !bits[i] then (res, -1)
    else if i == |bits| - 1 || !bits[i + 1] then
      if l == -1 then (res[i := 1], l) else (res[i + 1 := 1][l := -1], l)
    else (res, if l == -1 then i else l)
  }

  /** One bit of the loop keeps the number, and every digit it changes was zero. */
  lemma RecodeKeeps(bits: seq<bool>, res: seq<int>, l: int, i: nat)
    requires i < |bits| && Recoding(bits, res, l, i)
    ensures Recoding(bits, RecodeStep(bits, res, l, i).0, RecodeStep(bits, res, l, i).1, i + 1)
    ensures |RecodeStep(bits, res, l, i).0| == |res|
    ensures forall j :: 0 <= j < |res| && RecodeStep(bits, res, l, i).0[j] != res[j] ==> res[j] == 0
  {
    hide Num, SignedNum;
    NumTake(bits, i);
    if bits[i] && (i == |bits| - 1 || !bits[i + 1]) {
      if l == -1 {
        SignedUpdate(res, i, 1);
      } else {
        OnesRun(bits, l, i + 1);
        SignedUpdate(res, i + 1, 1);
        SignedUpdate(res[i + 1 := 1], l, -1);
      }
    }
  }

  // ----- how many digits

  /** The number of additions and subtractions. */
  function Nonzero(ds: seq<int>): nat {
    if |ds| == 0 then 0 else Nonzero(ds[..|ds| - 1]) + if ds[|ds| - 1] != 0 then 1 else 0
  }

  lemma {:induction false} NonzeroUpdate(ds: seq<int>, i: nat, d: int)
    requires i < |ds| && ds[i] == 0 && d != 0
    ensures Nonzero(ds[i := d]) == Nonzero(ds) + 1
  {
    var n := |ds| - 1;
    if i < n {
      NonzeroUpdate(ds[..n], i, d);
      assert ds[i := d][..n] == ds[..n][i := d];
    } else {
      assert ds[i := d][..n] == ds[..n];
    }
  }

  lemma NonzeroZeros(ds: seq<int>)
    requires forall j :: 0 <= j < |ds| ==> ds[j] == 0
    ensures Nonzero(ds) == 0
  {
  }

  predicate OneAt(bits: seq<bool>, i: int) {
    0 <= i < |bits| && bits[i]
  }

  /** One for every single one, two for every longer run of ones. */
  function RunDigits(bits: seq<bool>): nat {
    if |bits| == 0 then 0
    else
      var n := |bits| - 1;
      RunDigits(bits[..n]) + if bits[n] && !(OneAt(bits, n - 1) && OneAt(bits, n - 2)) then 1 else 0
  }

  lemma RunDigitsTake(bits: seq<bool>, i: nat)
    requires i < |bits|
    ensures RunDigits(bits[..i + 1])
         == RunDigits(bits[..i]) + if bits[i] && !(OneAt(bits, i - 1) && OneAt(bits, i - 2)) then 1 else 0
  {
    assert bits[..i + 1][..i] == bits[..i];
  }

  lemma {:induction false} RunDigitsRun(bits: seq<bool>, l: nat, i: nat)
    requires l <= i <= |bits| && (forall j :: l <= j < i ==> bits[j]) && !OneAt(bits, l - 1)
    ensures RunDigits(bits[..i]) == RunDigits(bits[..l]) + if i - l < 2 then i - l else 2
    decreases i
  {
    if l < i {
      RunDigitsRun(bits, l, i - 1);
      RunDigitsTake(bits, i - 1);
    }
  }

  /** The digits written so far are those of the runs that have ended. */
  ghost predicate Counted(bits: seq<bool>, res: seq<int>, l: int, i: nat) {
    && i <= |bits|
    && (if InRun(bits, l, i)
        then 0 <= l <= i && !OneAt(bits, l - 1) && Nonzero(res) == RunDigits(bits[..l])
        else (l == -1 && OneAt(bits, i) ==> !OneAt(bits, i - 1)) && Nonzero(res) == RunDigits(bits[..i]))
  }

  lemma RecodeCounts(bits: seq<bool>, res: seq<int>, l: int, i: nat)
    requires i < |bits| && Recoding(bits, res, l, i) && Counted(bits, res, l, i)
    ensures Counted(bits, RecodeStep(bits, res, l, i).0, RecodeStep(bits, res, l, i).1, i + 1)
  {
    hide Num, SignedNum, Nonzero, RunDigits;
    RunDigitsTake(bits, i);
    if bits[i] && (i == |bits| - 1 || !bits[i + 1]) {
      if l == -1 {
        NonzeroUpdate(res, i, 1);
      } else {
        RunDigitsRun(bits, l, i + 1);
        NonzeroUpdate(res, i + 1, 1);
        NonzeroUpdate(res[i + 1 := 1], l, -1);
      }
    }
  }

  /**
   * Signed digits of the same number, at most one more than there are bits, without leading zeros:
   * one nonzero digit for every single one and two for every longer run of ones.
   */
  method NegPosSumOfPowersOfTwo(bits: seq<bool>) returns (res: seq<int>)
    ensures SignedNum(res) == Num(bits) && forall j :: 0 <= j < |res| ==> IsDigit(res[j])
    ensures 1 <= |res| <= |bits| + 1 && (|res| > 1 ==> res[|res| - 1] != 0)
    ensures Nonzero(res) == RunDigits(bits)
  {
    hide Num, SignedNum, Nonzero, RunDigits;
    var len := |bits|;
    res := seq(len + 1, i => 0);
    NumZeros(bits[..0]);
    SignedZeros(res, 0);
    SignedNone(res[..0]);
    NonzeroZeros(res);
    RunDigitsRun(bits, 0, 0);
    NothingCounted(bits[..0]);
    var l := -1;
    for i := 0 to len
      invariant Recoding(bits, res, l, i) && Counted(bits, res, l, i)
    {
      RecodeKeeps(bits, res, l, i);
      RecodeCounts(bits, res, l, i);
      if !bits[i] {
        l := -1;
      } else if i == len - 1 || !bits[i + 1] {
        if l == -1 {
          res := res[i := 1];
        } else {
          res := res[i + 1 := 1];
          res := res[l := -1];
        }
      } else if l == -1 {
        l := i;
      }
    }
    assert bits[..len] == bits;
    while len > 0 && res[len] == 0
      invariant |res| == len + 1 <= |bits| + 1 && SignedNum(res) == Num(bits) && Nonzero(res) == RunDigits(bits)
      invariant forall j :: 0 <= j < |res| ==> IsDigit(res[j])
    {
      SignedZeros(res, len);
      NonzeroTop(res, len);
      res := res[..len];
      len := len - 1;
    }
  }

  lemma NothingCounted(bits: seq<bool>)
    requires |bits| == 0
    ensures RunDigits(bits) == 0
  {
  }

  lemma NonzeroTop(ds: seq<int>, n: nat)
    requires |ds| == n + 1 && ds[n] == 0
    ensures Nonzero(ds[..n]) == Nonzero(ds)
  {
  }

  lemma SignedNone(ds: seq<int>)
    requires |ds| == 0
    ensures SignedNum(ds) == 0
  {
  }

  // ----- the fewest digits

  ghost predicate Signed(ds: seq<int>, n: int) {
    SignedNum(ds) == n && forall j :: 0 <= j < |ds| ==> IsDigit(ds[j])
  }

  /** The fewest signed digits of a number: an odd number has a digit 1 or -1 below a rest. */
  function MinDigits(n: nat): nat {
    if n == 0 then 0
    else if n == 1 then 1
    else if n % 2 == 0 then MinDigits(n / 2)
    else 1 + if MinDigits(n / 2) < MinDigits(n / 2 + 1) then MinDigits(n / 2) else MinDigits(n / 2 + 1)
  }

  lemma {:induction false} SignedHead(ds: seq<int>)
    requires |ds| > 0
    ensures SignedNum(ds) == ds[0] + 2 * SignedNum(ds[1..])
    ensures Nonzero(ds) == Nonzero(ds[1..]) + if ds[0] != 0 then 1 else 0
  {
    if |ds| == 1 {
      assert ds[..0] == [] && ds[1..] == [];
      assert Pow2(0) == 1;
    } else {
      var n := |ds| - 1;
      SignedHead(ds[..n]);
      assert ds[..n][1..] == ds[1..][..n - 1];
      assert 2 * (ds[n] * Pow2(n - 1)) == ds[n] * Pow2(n);
    }
  }

  /** No signed digits of a number are fewer. */
  lemma {:induction false} MinDigitsBelow(ds: seq<int>)
    requires SignedNum(ds) >= 0 && forall j :: 0 <= j < |ds| ==> IsDigit(ds[j])
    ensures MinDigits(SignedNum(ds)) <= Nonzero(ds)
  {
    if |ds| > 0 {
      SignedHead(ds);
      assert IsDigit(ds[0]);
      MinDigitsBelow(ds[1..]);
    }
  }

  lemma SignedPush(d: int, ds: seq<int>)
    ensures SignedNum([d] + ds) == d + 2 * SignedNum(ds)
    ensures Nonzero([d] + ds) == Nonzero(ds) + if d != 0 then 1 else 0
  {
    SignedHead([d] + ds);
    assert ([d] + ds)[1..] == ds;
  }

  /** Some signed digits of the number are as few. */
  lemma {:induction false} MinDigitsReached(n: nat) returns (ds: seq<int>)
    ensures Signed(ds, n) && Nonzero(ds) == MinDigits(n)
  {
    hide SignedNum, Nonzero;
    if n < 2 {
      SignedNone([]);
      NonzeroZeros([]);
      SignedPush(n, []);
      ds := [n] + [];
    } else if n % 2 == 0 {
      var rest := MinDigitsReached(n / 2);
      SignedPush(0, rest);
      ds := [0] + rest;
    } else if MinDigits(n / 2) < MinDigits(n / 2 + 1) {
      var rest := MinDigitsReached(n / 2);
      SignedPush(1, rest);
      ds := [1] + rest;
    } else {
      var rest := MinDigitsReached(n / 2 + 1);
      SignedPush(-1, rest);
      ds := [-1] + rest;
    }
  }

  // ----- from bits

  function NextCarry(bit: bool, above: int): int {
    if bit then (if above == 1 then 0 else -1) else (if above == -1 then 0 else 1)
  }

  /** How many digits more the next number takes. */
  function Carry(bits: seq<bool>): (r: int)
    ensures -1 <= r <= 1
  {
    if |bits| == 0 then 1 else NextCarry(bits[0], Carry(bits[1..]))
  }

  lemma MinDigitsDouble(m: nat)
    ensures MinDigits(2 * m) == MinDigits(m)
    ensures MinDigits(2 * m + 1)
         == 1 + if MinDigits(m) < MinDigits(m + 1) then MinDigits(m) else MinDigits(m + 1)
  {
  }

  /** One more bit below a number. */
  lemma MinDigitsBit(bit: bool, m: nat, n: nat, above: int)
    requires n == Bit(bit) + 2 * m && MinDigits(m + 1) == MinDigits(m) + above && -1 <= above <= 1
    ensures MinDigits(n) == MinDigits(m) + if bit && above >= 0 then 1 else 0
    ensures MinDigits(n + 1) == MinDigits(n) + NextCarry(bit, above)
  {
    hide MinDigits;
    if bit {
      MinDigitsDouble(m);
      MinDigitsDouble(m + 1);
      assert n == 2 * m + 1 && n + 1 == 2 * (m + 1);
    } else {
      MinDigitsDouble(m);
      assert n == 2 * m;
    }
  }

  lemma {:induction false} MinDigitsHead(bits: seq<bool>)
    ensures MinDigits(Num(bits) + 1) == MinDigits(Num(bits)) + Carry(bits)
    ensures |bits| > 0 ==>
              MinDigits(Num(bits)) == MinDigits(Num(bits[1..])) + if bits[0] && Carry(bits[1..]) >= 0 then 1 else 0
  {
    hide Num;
    if |bits| > 0 {
      MinDigitsHead(bits[1..]);
      NumUncons(bits);
      hide MinDigits, NextCarry;
      MinDigitsBit(bits[0], Num(bits[1..]), Num(bits), Carry(bits[1..]));
    } else {
      NumZeros(bits);
    }
  }

  lemma {:induction false} RunDigitsHead(bits: seq<bool>)
    requires |bits| > 0
    ensures RunDigits(bits)
         == RunDigits(bits[1..]) + if bits[0] && !(OneAt(bits, 1) && OneAt(bits, 2)) then 1 else 0
  {
    var n := |bits| - 1;
    if n == 0 {
      assert bits[..0] == [] && bits[1..] == [];
    } else {
      RunDigitsHead(bits[..n]);
      assert bits[..n][1..] == bits[1..][..n - 1];
    }
  }

  predicate Differ(bits: seq<bool>, k: int) {
    0 <= k && k + 1 < |bits| && bits[k] != bits[k + 1]
  }

  /** Ones and zeros in turn from i to j, and then another one. */
  predicate Alternates(bits: seq<bool>, i: nat, j: nat) {
    i <= j && j + 1 < |bits| && bits[i] && bits[j] && bits[j + 1] && forall k :: i <= k < j ==> Differ(bits, k)
  }

  /** Two runs of two or more ones with nothing but single zeros and ones between them. */
  predicate Wasteful(bits: seq<bool>, i: nat, j: nat) {
    i < |bits| && bits[i] && i + 1 < j && Alternates(bits, i + 1, j)
  }

  lemma AlternatesShift(bits: seq<bool>, m: nat, i: nat, j: nat)
    requires m <= |bits|
    ensures Alternates(bits[m..], i, j) <==> Alternates(bits, i + m, j + m)
  {
    forall k: nat ensures Differ(bits[m..], k) == Differ(bits, k + m) {
    }
    if Alternates(bits[m..], i, j) {
      forall k | i + m <= k < j + m ensures Differ(bits, k) { assert Differ(bits[m..], k - m); }
    }
    if Alternates(bits, i + m, j + m) {
      forall k | i <= k < j ensures Differ(bits[m..], k) { assert Differ(bits, k + m); }
    }
  }

  lemma {:induction false} CarryIff(bits: seq<bool>)
    ensures Carry(bits) == -1 <==> exists j: nat :: Alternates(bits, 0, j)
  {
    if |bits| < 2 {
    } else if bits[0] && bits[1] {
      assert Alternates(bits, 0, 0);
    } else if bits[0] {
      CarryIff(bits[2..]);
      assert bits[1..][1..] == bits[2..];
      if j: nat :| Alternates(bits, 0, j) {
        assert j > 1;
        AlternatesTail(bits, j);
        AlternatesShift(bits, 2, 0, j - 2);
      }
      if j: nat :| Alternates(bits[2..], 0, j) {
        AlternatesShift(bits, 2, 0, j);
        assert Differ(bits, 0) && Differ(bits, 1);
        assert Alternates(bits, 0, j + 2);
      }
    }
  }

  lemma AlternatesTail(bits: seq<bool>, j: nat)
    requires Alternates(bits, 0, j) && j > 1
    ensures Alternates(bits, 2, j)
  {
    assert Differ(bits, 0) && Differ(bits, 1);
  }

  lemma WastefulHead(bits: seq<bool>)
    requires |bits| > 0
    ensures (exists j: nat :: Wasteful(bits, 0, j))
       <==> bits[0] && Carry(bits[1..]) == -1 && !(OneAt(bits, 1) && OneAt(bits, 2))
  {
    CarryIff(bits[1..]);
    hide Carry;
    if j: nat :| Wasteful(bits, 0, j) {
      AlternatesShift(bits, 1, 0, j - 1);
      assert Differ(bits, 1);
    }
    if bits[0] && !(OneAt(bits, 1) && OneAt(bits, 2)) && exists j: nat :: Alternates(bits[1..], 0, j) {
      var j: nat :| Alternates(bits[1..], 0, j);
      AlternatesShift(bits, 1, 0, j);
      assert Wasteful(bits, 0, j + 1);
    }
  }

  lemma WastefulTail(bits: seq<bool>)
    requires |bits| > 0
    ensures (exists i: nat, j: nat :: Wasteful(bits[1..], i, j))
       <==> exists i: nat, j: nat :: i > 0 && Wasteful(bits, i, j)
  {
    if i: nat, j: nat :| Wasteful(bits[1..], i, j) {
      AlternatesShift(bits, 1, i + 1, j);
      assert Wasteful(bits, i + 1, j + 1);
    }
    if i: nat, j: nat :| i > 0 && Wasteful(bits, i, j) {
      AlternatesShift(bits, 1, i, j - 1);
      assert Wasteful(bits[1..], i - 1, j - 1);
    }
  }

  lemma CarryLong(bits: seq<bool>)
    requires OneAt(bits, 0) && OneAt(bits, 1)
    ensures Carry(bits) == -1
  {
  }

  lemma {:induction false} RunDigitsMinimal(bits: seq<bool>)
    ensures MinDigits(Num(bits)) <= RunDigits(bits)
    ensures MinDigits(Num(bits)) == RunDigits(bits) <==> !exists i: nat, j: nat :: Wasteful(bits, i, j)
  {
    if |bits| > 0 {
      hide Num, MinDigits, RunDigits, Carry, Wasteful;
      RunDigitsMinimal(bits[1..]);
      MinDigitsHead(bits);
      RunDigitsHead(bits);
      WastefulHead(bits);
      WastefulTail(bits);
      if OneAt(bits, 1) && OneAt(bits, 2) {
        CarryLong(bits[1..]);
      }
    }
  }

  /**
   * The recoding uses the fewest additions and subtractions exactly for the bit vectors in which no
   * two runs of ones, each longer than one, are joined by single zeros and single ones only.
   */
  lemma FewestIff(bits: seq<bool>)
    ensures (forall ds :: Signed(ds, Num(bits)) ==> RunDigits(bits) <= Nonzero(ds))
       <==> !exists i: nat, j: nat :: Wasteful(bits, i, j)
  {
    hide Num, Nonzero, MinDigits, RunDigits, Wasteful;
    RunDigitsMinimal(bits);
    forall ds | Signed(ds, Num(bits)) ensures MinDigits(Num(bits)) <= Nonzero(ds) {
      MinDigitsBelow(ds);
    }
    var least := MinDigitsReached(Num(bits));
  }

  /** 27 is 32 - 4 - 1, and the recoding takes four digits. */
  lemma NotAlwaysFewest()
    ensures var bits := [true, true, false, true, true];
            && Num(bits) == 27 && RunDigits(bits) == 4 && Wasteful(bits, 0, 3)
            && Signed([-1, 0, -1, 0, 0, 1], 27) && Nonzero([-1, 0, -1, 0, 0, 1]) == 3
  {
    hide SignedNum, Nonzero, Num, RunDigits;
    SignedNone([]);
    NonzeroZeros([]);
    SignedPush(1, []);
    SignedPush(0, [1] + []);
    SignedPush(0, [0] + ([1] + []));
    SignedPush(-1, [0] + ([0] + ([1] + [])));
    SignedPush(0, [-1] + ([0] + ([0] + ([1] + []))));
    SignedPush(-1, [0] + ([-1] + ([0] + ([0] + ([1] + [])))));
    assert [-1] + ([0] + ([-1] + ([0] + ([0] + ([1] + []))))) == [-1, 0, -1, 0, 0, 1];
    TwentySeven([true, true, false, true, true]);
  }

  lemma TwentySeven(bits: seq<bool>)
    requires bits == [true, true, false, true, true]
    ensures Num(bits) == 27 && RunDigits(bits) == 4 && Wasteful(bits, 0, 3)
  {
    hide Num, RunDigits;
    assert bits[1..][1..] == bits[2..] && bits[2..][1..] == bits[3..] && bits[3..][1..] == bits[4..];
    assert bits[4..] == [true] && bits[4..][1..] == [];
    NumUncons(bits);
    NumUncons(bits[1..]);
    NumUncons(bits[2..]);
    NumUncons(bits[3..]);
    NumUncons(bits[4..]);
    NumZeros([]);
    RunDigitsHead(bits);
    RunDigitsHead(bits[1..]);
    RunDigitsHead(bits[2..]);
    RunDigitsHead(bits[3..]);
    RunDigitsHead(bits[4..]);
    NothingCounted([]);
  }
}
