/**
 * A bound on a circuit alone under which no 16-bit read counter of any run overflows.
 *
 * The load of a body is the number of wires its own steps read. Along any chain of active calls the
 * loads add up to at most the peak of the circuit, and no wire is ever due more reads than that,
 * because the reads a child's outputs are due are reads of its caller.
 */
module Loads {
  import opened Wrappers
  import opened Storage
  import opened Programs
  import opened Direct
  import Bits

  /** Counters are 16 bits wide. */
  lemma CounterWidth()
    ensures MAX_CREDITS + 1 == Bits.Pow2(16)
  {
    assert Bits.Pow2(8) == 256 by { assert Bits.Pow2(4) == 16; }
    assert Bits.Pow2(12) == 4096;
  }

  /** How many wires the steps of a body read, children not counted. */
  function Load(p: Prog): nat {
    match p
    case Done(_) => 0
    case Issue(next) => Load(next)
    case Gate(_, _, _, _, next) => 2 + Load(next)
    case Call(_, ins, _, next) => |ins| + Load(next)
  }

  function Max(a: nat, b: nat): nat {
    if a < b then b else a
  }

  /** The largest sum of loads along a chain of calls, each counted from its call on. */
  function Peak(p: Prog): (r: nat)
    ensures Load(p) <= r
  {
    match p
    case Done(_) => 0
    case Issue(next) => Peak(next)
    case Gate(_, _, _, _, next) => Max(Load(p), Peak(next))
    case Call(_, _, child, next) => Max(Load(p) + Peak(child), Peak(next))
  }

  function Sum(s: seq<nat>): nat {
    if |s| == 0 then 0 else Sum(s[..|s| - 1]) + s[|s| - 1]
  }

  function OfName(w: Wire, k: nat, n: nat): nat {
    if w.Slot? && k <= w.index < k + n then 1 else 0
  }

  /** The positions that hold one of the names k .. k+n-1. */
  function HitsWithin(ws: seq<Wire>, k: nat, n: nat): nat {
    if |ws| == 0 then 0 else HitsWithin(ws[..|ws| - 1], k, n) + OfName(ws[|ws| - 1], k, n)
  }

  function WeightWithin(ws: seq<Wire>, weights: seq<nat>, k: nat, n: nat): nat
    requires |ws| == |weights|
  {
    if |ws| == 0 then 0
    else
      var m := |ws| - 1;
      WeightWithin(ws[..m], weights[..m], k, n) + if OfName(ws[m], k, n) == 1 then weights[m] else 0
  }

  /** All uses of the names k .. k+n-1 together. */
  function UsesWithin(p: Prog, k: nat, n: nat, credits: seq<nat>): nat
    requires |credits| == Arity(p)
  {
    match p
    case Done(outs) => WeightWithin(outs, credits, k, n)
    case Issue(next) => UsesWithin(next, k, n, credits)
    case Gate(_, a, b, _, next) => OfName(a, k, n) + OfName(b, k, n) + UsesWithin(next, k, n, credits)
    case Call(_, ins, _, next) => HitsWithin(ins, k, n) + UsesWithin(next, k, n, credits)
  }

  lemma {:induction false} HitsWithinNext(ws: seq<Wire>, k: nat, n: nat)
    ensures HitsWithin(ws, k, n + 1) == HitsWithin(ws, k, n) + Hits(ws, k + n) && HitsWithin(ws, k, 0) == 0
  {
    if |ws| > 0 {
      HitsWithinNext(ws[..|ws| - 1], k, n);
    }
  }

  lemma {:induction false} WeightWithinNext(ws: seq<Wire>, weights: seq<nat>, k: nat, n: nat)
    requires |ws| == |weights|
    ensures WeightWithin(ws, weights, k, n + 1) == WeightWithin(ws, weights, k, n) + Weight(ws, weights, k + n)
    ensures WeightWithin(ws, weights, k, 0) == 0
  {
    if |ws| > 0 {
      WeightWithinNext(ws[..|ws| - 1], weights[..|ws| - 1], k, n);
    }
  }

  lemma {:induction false} UsesWithinNext(p: Prog, k: nat, n: nat, credits: seq<nat>)
    requires |credits| == Arity(p)
    ensures UsesWithin(p, k, n + 1, credits) == UsesWithin(p, k, n, credits) + Uses(p, k + n, credits)
    ensures UsesWithin(p, k, 0, credits) == 0
  {
    match p
    case Done(outs) => WeightWithinNext(outs, credits, k, n);
    case Issue(next) => UsesWithinNext(next, k, n, credits);
    case Gate(_, _, _, _, next) => UsesWithinNext(next, k, n, credits);
    case Call(_, ins, _, next) =>
      HitsWithinNext(ins, k, n);
      UsesWithinNext(next, k, n, credits);
  }

  lemma {:induction false} SumOfUses(p: Prog, k: nat, n: nat, credits: seq<nat>)
    requires |credits| == Arity(p)
    ensures Sum(UsesFrom(p, k, n, credits)) == UsesWithin(p, k, n, credits)
  {
    if n == 0 {
      UsesWithinNext(p, k, 0, credits);
    } else {
      hide Uses, UsesWithin;
      SumOfUses(p, k, n - 1, credits);
      UsesWithinNext(p, k, n - 1, credits);
      UsesFromPrefix(p, k, n - 1, credits);
    }
  }

  // ----- a position reads one wire

  lemma {:induction false} HitsShared(ws: seq<Wire>, env: seq<Wire>, k: nat, n: nat, a: nat)
    requires |env| <= k
    ensures Hits(ResolveAll(env, ws), a) + HitsWithin(ws, k, n) <= |ws|
  {
    if |ws| > 0 {
      var m := |ws| - 1;
      HitsShared(ws[..m], env, k, n, a);
      assert ResolveAll(env, ws)[..m] == ResolveAll(env, ws[..m]);
    }
  }

  lemma {:induction false} WeightShared(ws: seq<Wire>, weights: seq<nat>, env: seq<Wire>, k: nat, n: nat, a: nat)
    requires |ws| == |weights| && |env| <= k
    ensures Weight(ResolveAll(env, ws), weights, a) + WeightWithin(ws, weights, k, n) <= Sum(weights)
  {
    if |ws| > 0 {
      var m := |ws| - 1;
      WeightShared(ws[..m], weights[..m], env, k, n, a);
      assert ResolveAll(env, ws)[..m] == ResolveAll(env, ws[..m]);
    }
  }

  /** What a body does with one old wire and with all its names from k on is bounded by its load. */
  lemma {:induction false} FutureShared(p: Prog, env: seq<Wire>, credits: seq<nat>, k: nat, n: nat, a: nat)
    requires |credits| == Arity(p) && |env| <= k
    ensures Future(p, env, credits, a) + UsesWithin(p, k, n, credits) <= Load(p) + Sum(credits)
  {
    match p
    case Done(outs) => WeightShared(outs, credits, env, k, n, a);
    case Issue(next) => FutureShared(next, env, credits, k, n, a);
    case Gate(_, _, _, _, next) => FutureShared(next, env, credits, k, n, a);
    case Call(_, ins, _, next) =>
      HitsShared(ins, env, k, n, a);
      FutureShared(next, env, credits, k, n, a);
  }

  lemma UsesBounded(p: Prog, i: nat, credits: seq<nat>)
    requires |credits| == Arity(p)
    ensures Uses(p, i, credits) <= Load(p) + Sum(credits)
  {
    hide Future, UsesWithin, Uses;
    FutureShared(p, [], credits, i, 1, 0);
    UsesWithinNext(p, i, 0, credits);
  }

  // ----- runs

  /** The credits of a child's frame and the top-ups of its inputs fit 16 bits. */
  lemma PeakCallFits(p: Prog, env: seq<Wire>, credits: seq<nat>, outer: Ledger, bound: nat)
    requires p.Call? && |credits| == Arity(p) && bound + Peak(p) <= MAX_CREDITS
    requires forall a: nat :: outer(a) + Sum(credits) <= bound
    ensures var childCredits := UsesFrom(p.next, |env|, Arity(p.child), credits);
            && CallFits(p.child, ResolveAll(env, p.ins), childCredits, Rest(p, env, credits, outer))
            && forall a: nat :: Rest(p.next, env, credits, outer)(a) + Sum(childCredits) <= bound + Load(p.next)
  {
    var xs, m := ResolveAll(env, p.ins), Arity(p.child);
    var childCredits := UsesFrom(p.next, |env|, m, credits);
    SumOfUses(p.next, |env|, m, credits);
    forall a: nat
      ensures Future(p, env, credits, a) <= |p.ins| + Future(p.next, env, credits, a)
      ensures Future(p.next, env, credits, a) + Sum(childCredits) <= Load(p.next) + Sum(credits)
      ensures Future(p.child, xs, childCredits, a) <= Load(p.child) + Sum(childCredits)
    {
      HitsShared(p.ins, env, |env|, 0, a);
      FutureShared(p.next, env, credits, |env|, m, a);
      FutureShared(p.child, xs, childCredits, |xs|, 0, a);
    }
    assert outer(0) + Sum(credits) <= bound;
    assert Load(p) + Load(p.child) <= Peak(p);
    forall i | 0 <= i < |xs| + Issued(p.child) ensures Uses(p.child, i, childCredits) <= MAX_CREDITS {
      UsesBounded(p.child, i, childCredits);
      assert Future(p.next, env, credits, 0) + Sum(childCredits) <= Load(p.next) + Sum(credits);
    }
    hide Future, Uses, Load, Peak;
    forall a: nat
      ensures Rest(p, env, credits, outer)(a) + Future(p.child, xs, childCredits, a) <= MAX_CREDITS
      ensures Rest(p.next, env, credits, outer)(a) + Sum(childCredits) <= bound + Load(p.next)
    {
      assert outer(a) + Sum(credits) <= bound;
    }
  }

  /** No run of a circuit whose peak leaves room for what its caller will read overflows a counter. */
  lemma {:induction false} PeakFits<V, M>(ops: Backend<V, M>, p: Prog, env: seq<Wire>, credits: seq<nat>, outer: Ledger,
                                          s: State<V, M>, bound: nat)
    requires |credits| == Arity(p) && bound + Peak(p) <= MAX_CREDITS
    requires forall a: nat :: outer(a) + Sum(credits) <= bound
    ensures Eval(ops, p, env, credits, outer, s) != Failure(CreditOverflow)
    decreases p
  {
    match p
    case Done(_) =>
    case Issue(next) =>
      var (cells, w) := NewWire(s.cells, Uses(next, |env|, credits));
      PeakFits(ops, next, env + [w], credits, outer, s.(cells := cells), bound);
    case Gate(gt, a, b, c, next) =>
      var z := Resolve(env, Slot(c));
      var live := z.Slot? && Rest(next, env, credits, outer)(z.index) > 0;
      var s' := GateStep(ops, s, gt, Resolve(env, a), Resolve(env, b), z, live);
      PeakFits(ops, next, env, credits, outer, if s'.Success? then s'.value else s, bound);
    case Call(_, ins, child, next) =>
      PeakCallFits(p, env, credits, outer, bound);
      assert Peak(p) >= Load(next) + Peak(child) && Peak(p) >= Peak(next);
      hide CallFits, Rest, UsesFrom, Sum, Load, Peak;
      var xs, childCredits := ResolveAll(env, ins), UsesFrom(next, |env|, Arity(child), credits);
      var rest := Rest(next, env, credits, outer);
      PeakFits(ops, child, xs, childCredits, rest, s, bound + Load(next));
      var r := Eval(ops, child, xs, childCredits, rest, s);
      if r.Success? {
        PeakFits(ops, next, env + r.value.outs, credits, outer, r.value.state, bound);
      }
  }

  lemma SumOnes(n: nat)
    ensures Sum(Ones(n)) == n
  {
    if n > 0 {
      assert Ones(n)[..n - 1] == Ones(n - 1);
      SumOnes(n - 1);
    }
  }

  /**
   * If the peak of a circuit and the number of its outputs stay below 2^16 - 1, all hypotheses of the
   * streaming run about counters hold, for every backend, mode and input.
   */
  lemma LightCircuits<V, M>(ops: Backend<V, M>, mode: M, p: Prog, inputs: seq<V>)
    requires Peak(p) + Arity(p) < MAX_CREDITS
    ensures RootFits(p, |inputs|) && EvalRoot(ops, mode, p, inputs) != Failure(CreditOverflow)
  {
    var ones := Ones(Arity(p));
    SumOnes(Arity(p));
    forall i: nat ensures Uses(p, i, ones) < MAX_CREDITS {
      UsesBounded(p, i, ones);
    }
    hide Uses, Peak, Sum, Eval;
    PeakFits(ops, p, Names(|inputs|), ones, Nothing, State(Inputs(inputs), mode), Arity(p));
  }
}
