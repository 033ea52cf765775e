/**
 * A gadget as a circuit: the ripple adder's wires and gates, run by the streaming machine with
 * slots reused, and garbled and evaluated. Its outputs are the bits of the sum at every width.
 */
module AdderCircuit {
  import opened Wrappers
  import opened Gates
  import opened Storage
  import opened Programs
  import opened Direct
  import opened Execute
  import opened Bits
  import Streaming
  import Garbling

  /**
   * The full adders from position `i` on. Names 0 .. n-1 are the bits of `a` and the next n those
   * of `b`; `k` names have been used, and `c` is the carry.
   */
  function RippleFrom(n: nat, i: nat, k: nat, c: nat, outs: seq<Wire>): Prog
    decreases n - i
  {
    if i >= n then Done(outs + [Slot(c)])
    else
      var next := RippleFrom(n, i + 1, k + 5, k + 4, outs + [Slot(k + 2)]);
      Issue(Issue(Issue(Issue(Issue(FullAdderGates(n, i, k, c, next))))))
  }

  /** The five gates of a full adder; its wires are named k .. k+4. */
  function FullAdderGates(n: nat, i: nat, k: nat, c: nat, next: Prog): Prog {
    Gate(Xor, Slot(i), Slot(c), k,
    Gate(Xor, Slot(n + i), Slot(c), k + 1,
    Gate(Xor, Slot(i), Slot(k + 1), k + 2,
    Gate(And, Slot(k), Slot(k + 1), k + 3,
    Gate(Xor, Slot(c), Slot(k + 3), k + 4, next)))))
  }

  /** A half adder, then full adders. */
  function Adder(n: nat): Prog {
    Issue(Issue(Gate(Xor, Slot(0), Slot(n), 2 * n, Gate(And, Slot(0), Slot(n), 2 * n + 1,
      RippleFrom(n, 1, 2 * n + 2, 2 * n + 1, [Slot(2 * n)])))))
  }

  // ----- its plain meaning

  lemma PlainIssue(p: Prog, env: seq<Option<bool>>)
    ensures Plain(Issue(p), env) == Plain(p, env + [None])
  {
  }

  lemma PlainGate(p: Prog, env: seq<Option<bool>>, x: bool, y: bool)
    requires p.Gate? && p.c < |env| && env[p.c].None?
    requires ValueOf(env, p.a) == Some(x) && ValueOf(env, p.b) == Some(y)
    ensures Plain(p, env) == Plain(p.next, env[p.c := Some(Truth(p.gt, x, y))])
  {
  }

  /** The names bound so far: the inputs, the sum bits so far and the carry. */
  ghost predicate Bindings(env: seq<Option<bool>>, a: seq<bool>, b: seq<bool>, i: nat, c: nat, outs: seq<Wire>,
                           r: seq<bool>, carry: bool) {
    && |a| == |b| && 2 * |a| <= |env| && i <= |a|
    && (forall j :: 0 <= j < |a| ==> env[j] == Some(a[j]) && env[|a| + j] == Some(b[j]))
    && c < |env| && env[c] == Some(carry)
    && |outs| == |r| == i && (forall j :: 0 <= j < i ==> ValueOf(env, outs[j]) == Some(r[j]))
    && Num(r) + (if carry then Pow2(i) else 0) == Num(a[..i]) + Num(b[..i])
  }

  /** One full adder. */
  lemma FullAdderMeaning(env: seq<Option<bool>>, n: nat, i: nat, c: nat, x: bool, y: bool, carry: bool, next: Prog)
    returns (env': seq<Option<bool>>, sum: bool, carry': bool)
    requires i < |env| && n + i < |env| && c < |env| && env[i] == Some(x) && env[n + i] == Some(y)
    requires env[c] == Some(carry)
    ensures Plain(Issue(Issue(Issue(Issue(Issue(FullAdderGates(n, i, |env|, c, next)))))), env) == Plain(next, env')
    ensures |env'| == |env| + 5 && env'[..|env|] == env && env'[|env| + 2] == Some(sum)
    ensures env'[|env| + 4] == Some(carry')
    ensures Bit(sum) + 2 * Bit(carry') == Bit(x) + Bit(y) + Bit(carry)
  {
    hide Plain;
    var k := |env|;
    var p := FullAdderGates(n, i, k, c, next);
    PlainIssue(Issue(Issue(Issue(Issue(p)))), env);
    PlainIssue(Issue(Issue(Issue(p))), env + [None]);
    PlainIssue(Issue(Issue(p)), env + [None] + [None]);
    PlainIssue(Issue(p), env + [None] + [None] + [None]);
    PlainIssue(p, env + [None] + [None] + [None] + [None]);
    var e0 := env + [None] + [None] + [None] + [None] + [None];
    var axc, bxc := x != carry, y != carry;
    PlainGate(p, e0, x, carry);
    var e1 := e0[k := Some(axc)];
    PlainGate(p.next, e1, y, carry);
    var e2 := e1[k + 1 := Some(bxc)];
    PlainGate(p.next.next, e2, x, bxc);
    sum := x != bxc;
    var e3 := e2[k + 2 := Some(sum)];
    PlainGate(p.next.next.next, e3, axc, bxc);
    var e4 := e3[k + 3 := Some(axc && bxc)];
    PlainGate(p.next.next.next.next, e4, carry, axc && bxc);
    carry' := carry != (axc && bxc);
    env' := e4[k + 4 := Some(carry')];
  }

  lemma RippleEnd(a: seq<bool>, b: seq<bool>, c: nat, outs: seq<Wire>, env: seq<Option<bool>>, r: seq<bool>,
                  carry: bool)
    requires Bindings(env, a, b, |a|, c, outs, r, carry)
    ensures Plain(RippleFrom(|a|, |a|, |env|, c, outs), env) == Some(r + [carry]) && Num(r + [carry]) == Num(a) + Num(b)
  {
    hide Num, ValuesOf;
    assert a[..|a|] == a && b[..|a|] == b;
    NumPush(r, carry);
    var ws := outs + [Slot(c)];
    assert forall j :: 0 <= j < |ws| ==> ValueOf(env, ws[j]) == Some((r + [carry])[j]);
    assert ValuesOf(env, ws).value == r + [carry];
  }

  lemma {:induction false} RippleMeaning(a: seq<bool>, b: seq<bool>, i: nat, c: nat, outs: seq<Wire>,
                                         env: seq<Option<bool>>, r: seq<bool>, carry: bool)
    returns (sum: seq<bool>)
    requires Bindings(env, a, b, i, c, outs, r, carry)
    ensures Plain(RippleFrom(|a|, i, |env|, c, outs), env) == Some(sum)
    ensures |sum| == |a| + 1 && Num(sum) == Num(a) + Num(b)
    decreases |a| - i
  {
    if i == |a| {
      sum := r + [carry];
      RippleEnd(a, b, c, outs, env, r, carry);
    } else {
      BindingsRead(env, a, b, i, c, outs, r, carry);
      hide Plain, Num, Bindings;
      var k := |env|;
      var next := RippleFrom(|a|, i + 1, k + 5, k + 4, outs + [Slot(k + 2)]);
      var env', s, carry' := FullAdderMeaning(env, |a|, i, c, a[i], b[i], carry, next);
      NextBindings(env, env', a, b, i, c, outs, r, carry, s, carry');
      sum := RippleMeaning(a, b, i + 1, k + 4, outs + [Slot(k + 2)], env', r + [s], carry');
    }
  }

  lemma BindingsRead(env: seq<Option<bool>>, a: seq<bool>, b: seq<bool>, i: nat, c: nat, outs: seq<Wire>, r: seq<bool>,
                     carry: bool)
    requires Bindings(env, a, b, i, c, outs, r, carry) && i < |a|
    ensures i < |env| && |a| + i < |env| && c < |env| && i < |b|
    ensures env[i] == Some(a[i]) && env[|a| + i] == Some(b[i]) && env[c] == Some(carry)
  {
    hide Num;
  }

  lemma NextBindings(env: seq<Option<bool>>, env': seq<Option<bool>>, a: seq<bool>, b: seq<bool>, i: nat, c: nat,
                     outs: seq<Wire>, r: seq<bool>, carry: bool, s: bool, carry': bool)
    requires Bindings(env, a, b, i, c, outs, r, carry) && i < |a|
    requires |env'| == |env| + 5 && env'[..|env|] == env && env'[|env| + 2] == Some(s)
    requires env'[|env| + 4] == Some(carry')
    requires Bit(s) + 2 * Bit(carry') == Bit(a[i]) + Bit(b[i]) + Bit(carry)
    ensures Bindings(env', a, b, i + 1, |env| + 4, outs + [Slot(|env| + 2)], r + [s], carry')
  {
    hide Num;
    NumTake(a, i);
    NumTake(b, i);
    NumPush(r, s);
    assert forall j :: 0 <= j < |env| ==> env'[j] == env'[..|env|][j] == env[j];
  }

  /** The adder circuit means addition. */
  lemma AdderMeaning(a: seq<bool>, b: seq<bool>) returns (sum: seq<bool>)
    requires |a| == |b| > 0
    ensures Meaning(Adder(|a|), a + b) == Some(sum)
    ensures |sum| == |a| + 1 && Num(sum) == Num(a) + Num(b)
  {
    hide Plain;
    var n := |a|;
    var env := Bound(a + b);
    var p := Adder(n).next.next;
    PlainIssue(Issue(p), env);
    PlainIssue(p, env + [None]);
    var e0 := env + [None] + [None];
    PlainGate(p, e0, a[0], b[0]);
    var e1 := e0[2 * n := Some(a[0] != b[0])];
    PlainGate(p.next, e1, a[0], b[0]);
    var e2 := e1[2 * n + 1 := Some(a[0] && b[0])];
    HalfAdderBindings(a, b, env, e2);
    sum := RippleMeaning(a, b, 1, 2 * n + 1, [Slot(2 * n)], e2, [a[0] != b[0]], a[0] && b[0]);
  }

  lemma HalfAdderBindings(a: seq<bool>, b: seq<bool>, env: seq<Option<bool>>, e2: seq<Option<bool>>)
    requires |a| == |b| > 0 && env == Bound(a + b)
    requires e2 == (env + [None] + [None])[2 * |a| := Some(a[0] != b[0])][2 * |a| + 1 := Some(a[0] && b[0])]
    ensures Bindings(e2, a, b, 1, 2 * |a| + 1, [Slot(2 * |a|)], [a[0] != b[0]], a[0] && b[0])
  {
    hide Num;
    NumTake(a, 0);
    NumTake(b, 0);
    NumPush([], a[0] != b[0]);
    NumZeros([]);
    assert [] + [a[0] != b[0]] == [a[0] != b[0]] && a[..0] == [] && b[..0] == [] && Pow2(1) == 2 && Pow2(0) == 1;
  }

  // ----- its counters

  lemma {:induction false} RippleShape(n: nat, i: nat, k: nat, c: nat, outs: seq<Wire>)
    requires c < k && 2 * n <= k && i <= n && AllInScope(outs, k)
    ensures Arity(RippleFrom(n, i, k, c, outs)) == |outs| + n - i + 1
    ensures WellFormed(RippleFrom(n, i, k, c, outs), k) && CallFree(RippleFrom(n, i, k, c, outs))
    decreases n - i
  {
    if i < n {
      RippleShape(n, i + 1, k + 5, k + 4, outs + [Slot(k + 2)]);
      GatesShape(n, i, k, c, RippleFrom(n, i + 1, k + 5, k + 4, outs + [Slot(k + 2)]));
    }
  }

  lemma GatesOuts(n: nat, i: nat, k: nat, c: nat, next: Prog)
    ensures var g := FullAdderGates(n, i, k, c, next);
            && Arity(next) == Arity(g.next.next.next.next) == Arity(g.next.next.next)
               == Arity(g.next.next) == Arity(g.next) == Arity(g)
            && Arity(Issue(Issue(Issue(Issue(Issue(g)))))) == Arity(g)
  {
    var g := FullAdderGates(n, i, k, c, next);
    assert Outs(g.next.next.next.next) == Outs(next);
    assert Outs(g.next.next) == Outs(g.next.next.next) == Outs(g.next.next.next.next);
    assert Outs(g) == Outs(g.next) == Outs(g.next.next);
    assert Outs(Issue(Issue(g))) == Outs(Issue(g)) == Outs(g);
    assert Outs(Issue(Issue(Issue(Issue(g))))) == Outs(Issue(Issue(Issue(g)))) == Outs(Issue(Issue(g)));
  }

  lemma GatesShape(n: nat, i: nat, k: nat, c: nat, next: Prog)
    requires c < k && 2 * n <= k && i < n && WellFormed(next, k + 5) && CallFree(next)
    ensures var p := Issue(Issue(Issue(Issue(Issue(FullAdderGates(n, i, k, c, next))))));
            Arity(p) == Arity(next) && WellFormed(p, k) && CallFree(p)
  {
    var g := FullAdderGates(n, i, k, c, next);
    GatesOuts(n, i, k, c, next);
    hide Outs;
    assert WellFormed(g.next.next.next, k + 5) && CallFree(g.next.next.next);
    assert WellFormed(g.next, k + 5) && CallFree(g.next);
    assert WellFormed(Issue(g), k + 4) && CallFree(Issue(g));
    assert WellFormed(Issue(Issue(Issue(g))), k + 2) && CallFree(Issue(Issue(Issue(g))));
  }

  predicate CallFree(p: Prog) {
    match p
    case Done(_) => true
    case Issue(next) => CallFree(next)
    case Gate(_, _, _, _, next) => CallFree(next)
    case Call(_, _, _, _) => false
  }

  /** Without calls no top-up can overflow. */
  lemma {:induction false} CallFreeFits<V, M>(ops: Backend<V, M>, p: Prog, env: seq<Wire>, credits: seq<nat>,
                                              outer: Ledger, s: State<V, M>)
    requires CallFree(p) && |credits| == Arity(p)
    ensures Eval(ops, p, env, credits, outer, s) != Failure(CreditOverflow)
    decreases p
  {
    match p
    case Done(outs) =>
    case Issue(next) =>
      var (cells, w) := NewWire(s.cells, Uses(next, |env|, credits));
      CallFreeFits(ops, next, env + [w], credits, outer, s.(cells := cells));
    case Gate(gt, a, b, c, next) =>
      var z := Resolve(env, Slot(c));
      var live := z.Slot? && Rest(next, env, credits, outer)(z.index) > 0;
      var s' := GateStep(ops, s, gt, Resolve(env, a), Resolve(env, b), z, live);
      CallFreeFits(ops, next, env, credits, outer, if s'.Success? then s'.value else s);
  }

  /** Without calls keys do not matter. */
  lemma CallFreeKeys(p: Prog, lib: Streaming.Library)
    requires CallFree(p)
    ensures KeysAgree(p, lib)
  {
  }

  function InputUse(n: nat, i: nat, x: nat): nat {
    if i <= x < n || n + i <= x < 2 * n then 2 else 0
  }

  /** No wire of the adder is read more than a few times. */
  lemma {:induction false} RippleUses(n: nat, i: nat, k: nat, c: nat, outs: seq<Wire>, x: nat)
    requires 2 * n <= c < k && i <= n && AllInScope(outs, k)
    ensures var p := RippleFrom(n, i, k, c, outs);
            Uses(p, x, Ones(Arity(p)))
            <= Hits(outs, x) + InputUse(n, i, x) + (if x == c then 3 else 0) + (if x >= k then 4 else 0)
    decreases n - i
  {
    RippleShape(n, i, k, c, outs);
    if i == n {
      RippleEndUses(n, k, c, outs, x);
    } else {
      var outs' := outs + [Slot(k + 2)];
      var next := RippleFrom(n, i + 1, k + 5, k + 4, outs');
      RippleShape(n, i + 1, k + 5, k + 4, outs');
      RippleUses(n, i + 1, k + 5, k + 4, outs', x);
      HitsPush(outs, Slot(k + 2), x);
      GatesUses(n, i, k, c, next, x, Ones(Arity(next)));
      hide Uses, Hits, Outs, FullAdderGates, AllInScope, InputUse;
      var p := RippleFrom(n, i, k, c, outs);
      StageUses(n, i, k, c, x, Hits(outs, x), Uses(p, x, Ones(Arity(p))), Uses(next, x, Ones(Arity(next))));
    }
  }

  lemma StageUses(n: nat, i: nat, k: nat, c: nat, x: nat, hits: nat, now: nat, later: nat)
    requires 2 * n <= c < k && i < n
    requires later <= hits + Hit(Slot(k + 2), x) + InputUse(n, i + 1, x)
                      + (if x == k + 4 then 3 else 0) + (if x >= k + 5 then 4 else 0)
    requires now == later + 2 * Hit(Slot(i), x) + Hit(Slot(n + i), x) + 3 * Hit(Slot(c), x)
                    + Hit(Slot(k), x) + 2 * Hit(Slot(k + 1), x) + Hit(Slot(k + 3), x)
    ensures now <= hits + InputUse(n, i, x) + (if x == c then 3 else 0) + (if x >= k then 4 else 0)
  {
  }

  lemma HitsPush(ws: seq<Wire>, w: Wire, x: nat)
    ensures Hits(ws + [w], x) == Hits(ws, x) + Hit(w, x)
  {
    assert (ws + [w])[..|ws|] == ws;
  }

  lemma RippleEndUses(n: nat, k: nat, c: nat, outs: seq<Wire>, x: nat)
    ensures var p := RippleFrom(n, n, k, c, outs);
            Uses(p, x, Ones(Arity(p))) == Hits(outs, x) + Hit(Slot(c), x)
  {
    Streaming.WeightOnes(outs + [Slot(c)], x);
    HitsPush(outs, Slot(c), x);
  }

  lemma GatesUses(n: nat, i: nat, k: nat, c: nat, next: Prog, x: nat, credits: seq<nat>)
    requires |credits| == Arity(next)
    ensures var g := FullAdderGates(n, i, k, c, next);
            && Arity(Issue(Issue(Issue(Issue(Issue(g)))))) == Arity(next)
            && Uses(Issue(Issue(Issue(Issue(Issue(g))))), x, credits) == Uses(next, x, credits)
                 + 2 * Hit(Slot(i), x) + Hit(Slot(n + i), x) + 3 * Hit(Slot(c), x)
                 + Hit(Slot(k), x) + 2 * Hit(Slot(k + 1), x) + Hit(Slot(k + 3), x)
  {
    var g := FullAdderGates(n, i, k, c, next);
    GatesOuts(n, i, k, c, next);
    hide Outs, Hit;
    var g3, g4 := g.next.next.next, g.next.next.next.next;
    assert Uses(g4, x, credits) == Hit(Slot(c), x) + Hit(Slot(k + 3), x) + Uses(next, x, credits);
    assert Uses(g3, x, credits) == Hit(Slot(k), x) + Hit(Slot(k + 1), x) + Uses(g4, x, credits);
    assert Uses(g.next.next, x, credits) == Hit(Slot(i), x) + Hit(Slot(k + 1), x) + Uses(g3, x, credits);
    assert Uses(g.next, x, credits) == Hit(Slot(n + i), x) + Hit(Slot(c), x) + Uses(g.next.next, x, credits);
    assert Uses(g, x, credits) == Hit(Slot(i), x) + Hit(Slot(c), x) + Uses(g.next, x, credits);
    IssuesUses(g, x, credits);
  }

  lemma IssuesUses(g: Prog, x: nat, credits: seq<nat>)
    requires |credits| == Arity(g)
    ensures Arity(Issue(Issue(Issue(Issue(Issue(g)))))) == Arity(g)
    ensures Uses(Issue(Issue(Issue(Issue(Issue(g))))), x, credits) == Uses(g, x, credits)
  {
    var h := Issue(Issue(g));
    assert Outs(h) == Outs(Issue(g)) == Outs(g);
    assert Uses(h, x, credits) == Uses(Issue(g), x, credits) == Uses(g, x, credits);
    assert Outs(Issue(Issue(h))) == Outs(Issue(h)) == Outs(h);
    assert Uses(Issue(Issue(h)), x, credits) == Uses(Issue(h), x, credits) == Uses(h, x, credits);
  }

  lemma AdderShape(n: nat)
    requires n > 0
    ensures WellFormed(Adder(n), 2 * n) && CallFree(Adder(n))
    ensures Arity(Adder(n)) == Arity(RippleFrom(n, 1, 2 * n + 2, 2 * n + 1, [Slot(2 * n)])) == n + 1
  {
    var next := RippleFrom(n, 1, 2 * n + 2, 2 * n + 1, [Slot(2 * n)]);
    RippleShape(n, 1, 2 * n + 2, 2 * n + 1, [Slot(2 * n)]);
    hide RippleFrom;
    var p := Adder(n);
    assert Outs(p.next.next) == Outs(next) && WellFormed(p.next.next, 2 * n + 2) && CallFree(p.next.next);
    assert Outs(p) == Outs(p.next.next) && WellFormed(p, 2 * n) && CallFree(p);
  }

  lemma AdderUses(n: nat, x: nat)
    requires n > 0
    ensures Uses(Adder(n), x, Ones(Arity(Adder(n)))) <= 20
  {
    AdderShape(n);
    RippleUses(n, 1, 2 * n + 2, 2 * n + 1, [Slot(2 * n)], x);
    var next, p, credits := RippleFrom(n, 1, 2 * n + 2, 2 * n + 1, [Slot(2 * n)]), Adder(n), Ones(Arity(Adder(n)));
    hide RippleFrom;
    assert [Slot(2 * n)][..0] == [];
    assert Outs(p.next.next) == Outs(next);
    assert Uses(p.next.next, x, credits) == Uses(next, x, credits) + 2 * Hit(Slot(0), x) + 2 * Hit(Slot(n), x);
    assert Outs(p) == Outs(p.next.next) && Uses(p, x, credits) == Uses(p.next.next, x, credits);
  }

  // ----- the adder as a component

  /** The names k .. k+n-1. */
  function NamesFrom(k: nat, n: nat): (r: seq<Wire>)
    ensures |r| == n && forall j :: 0 <= j < n ==> r[j] == Slot(k + j)
  {
    seq(n, j requires 0 <= j < n => Slot(k + j))
  }

  /** A circuit that calls the adder as a child on its inputs and returns the child's outputs. */
  function AddCall(key: Key, n: nat): Prog {
    Call(key, Names(2 * n), Adder(n), Done(NamesFrom(2 * n, n + 1)))
  }

  /** The bodies of the circuit and of its component. */
  function AddLibrary(key: Key, n: nat): Streaming.Library {
    map[key := (Adder(n), 2 * n), Streaming.ROOT_KEY := (AddCall(key, n), 2 * n)]
  }

  lemma {:induction false} HitsNamesFrom(k: nat, n: nat, a: nat)
    ensures Hits(NamesFrom(k, n), a) == if k <= a < k + n then 1 else 0
  {
    if n > 0 {
      HitsNamesFrom(k, n - 1, a);
      assert NamesFrom(k, n)[..n - 1] == NamesFrom(k, n - 1);
    }
  }

  lemma ValuesOfOutputs(vs: seq<bool>, results: seq<bool>)
    ensures ValuesOf(Bound(vs) + Bound(results), NamesFrom(|vs|, |results|)) == Some(results)
  {
    var env, ws := Bound(vs) + Bound(results), NamesFrom(|vs|, |results|);
    forall j | 0 <= j < |results| ensures ValueOf(env, ws[j]) == Some(results[j]) {
      assert env[|vs| + j] == Bound(results)[j];
    }
    hide ValuesOf;
    assert ValuesOf(env, ws).Some?;
    assert ValuesOf(env, ws).value == results;
  }

  lemma ValuesOfInputs(vs: seq<bool>)
    ensures ValuesOf(Bound(vs), Names(|vs|)) == Some(vs)
  {
    forall j | 0 <= j < |vs| ensures ValueOf(Bound(vs), Names(|vs|)[j]) == Some(vs[j]) {
    }
    hide ValuesOf;
    assert ValuesOf(Bound(vs), Names(|vs|)).Some?;
    assert ValuesOf(Bound(vs), Names(|vs|)).value == vs;
  }

  lemma CallMeaning(p: Prog, args: seq<bool>, results: seq<bool>)
    requires p.Call? && p.next == Done(NamesFrom(|args|, |results|)) && p.ins == Names(|args|)
    requires Plain(p.child, Bound(args)) == Some(results)
    ensures Meaning(p, args) == Some(results)
  {
    ValuesOfInputs(args);
    ValuesOfOutputs(args, results);
    hide ValuesOf, Bound, Names, NamesFrom;
    assert Plain(p.next, Bound(args) + Bound(results)) == Some(results);
    assert Plain(p, Bound(args)) == Plain(p.next, Bound(args) + Bound(results));
  }

  lemma AddCallMeaning(key: Key, a: seq<bool>, b: seq<bool>) returns (sum: seq<bool>)
    requires |a| == |b| > 0
    ensures Meaning(AddCall(key, |a|), a + b) == Some(sum)
    ensures |sum| == |a| + 1 && Num(sum) == Num(a) + Num(b)
  {
    hide Plain, Num, Adder;
    sum := AdderMeaning(a, b);
    CallMeaning(AddCall(key, |a|), a + b, sum);
  }

  /** The circuit reads each input once, and each output of its child once. */
  lemma AddCallCredits(n: nat, p: Prog, names: seq<Wire>, ones: seq<nat>, i: nat)
    requires n > 0 && p.Call? && p == AddCall(p.key, n) && names == Names(2 * n) && ones == Ones(n + 1)
    ensures Arity(p.child) == n + 1 == Arity(p) == Arity(p.next)
    ensures Uses(p, i, ones) <= 2 && Rest(p, names, ones, Nothing)(i) <= 1
    ensures 2 * n <= i < 3 * n + 1 ==> Uses(p.next, i, ones) == 1
  {
    AdderShape(n);
    hide Adder;
    var outs := NamesFrom(2 * n, n + 1);
    Streaming.WeightOnes(outs, i);
    HitsNamesFrom(2 * n, n + 1, i);
    Streaming.HitsNames(2 * n, i);
    assert Uses(p.next, i, ones) == Weight(outs, ones, i);
    WeightUnbound(ResolveAll(names, outs), ones, i);
    assert Future(p.next, names, ones, i) == 0;
    assert ResolveAll(names, names) == names;
    assert Future(p, names, ones, i) == Hits(names, i) + Future(p.next, names, ones, i);
    assert Rest(p, names, ones, Nothing)(i) == Future(p, names, ones, i);
  }

  /** The counters of the child stay small. */
  lemma AdderCallFits(n: nat, child: Prog, names: seq<Wire>, ones: seq<nat>, before: Ledger)
    requires n > 0 && child == Adder(n) && names == Names(2 * n) && ones == Ones(n + 1)
    requires forall i: nat :: before(i) <= 1
    ensures Arity(child) == n + 1 && CallFits(child, names, ones, before)
  {
    AdderShape(n);
    hide Adder, Future;
    forall x: nat ensures Uses(child, x, ones) <= 20 {
      AdderUses(n, x);
    }
    forall j | 0 <= j < 2 * n ensures Future(child, names, ones, j) <= 20 {
      FutureOfInputs(child, names, ones, j);
      Streaming.WeightNames(2 * n, UsesFrom(child, 0, 2 * n, ones), j);
    }
  }

  lemma AddCallShape(key: Key, n: nat)
    requires n > 0 && key != Streaming.ROOT_KEY
    ensures WellFormed(AddCall(key, n), 2 * n) && KeysAgree(AddCall(key, n), AddLibrary(key, n))
  {
    AdderShape(n);
    CallFreeKeys(Adder(n), AddLibrary(key, n));
    hide Adder;
  }

  lemma AddCallRootFits(key: Key, n: nat)
    requires n > 0
    ensures RootFits(AddCall(key, n), 2 * n)
  {
    var p, ones := AddCall(key, n), Ones(n + 1);
    AddCallCredits(n, p, Names(2 * n), ones, 0);
    forall i: nat ensures Uses(p, i, ones) <= 2 {
      AddCallCredits(n, p, Names(2 * n), ones, i);
    }
    hide AddCall, Uses;
  }

  /** The adder of any width, called as a component, satisfies all hypotheses of the streaming run. */
  lemma AdderFits<V, M>(ops: Backend<V, M>, mode: M, key: Key, n: nat, inputs: seq<V>)
    requires n > 0 && |inputs| == 2 * n && key != Streaming.ROOT_KEY
    ensures WellFormed(AddCall(key, n), 2 * n) && RootFits(AddCall(key, n), 2 * n)
    ensures KeysAgree(AddCall(key, n), AddLibrary(key, n))
    ensures EvalRoot(ops, mode, AddCall(key, n), inputs) != Failure(CreditOverflow)
  {
    AddCallShape(key, n);
    AddCallRootFits(key, n);
    var p, ones, names, s := AddCall(key, n), Ones(n + 1), Names(2 * n), State(Inputs(inputs), mode);
    AdderShape(n);
    hide Adder, WellFormed, RootFits, KeysAgree, Uses, Future, Rest, CallFits, Eval;
    AddCallCredits(n, p, names, ones, 0);
    forall i: nat
      ensures Rest(p, names, ones, Nothing)(i) <= 1
      ensures 2 * n <= i < 3 * n + 1 ==> Uses(p.next, i, ones) == 1
    {
      AddCallCredits(n, p, names, ones, i);
    }
    CallFreeFits(ops, p.child, names, ones, Rest(p.next, names, ones, Nothing), s);
    AdderCallFits(n, p.child, names, ones, Rest(p, names, ones, Nothing));
    assert ResolveAll(names, names) == names;
    assert UsesFrom(p.next, 2 * n, n + 1, ones) == ones;
    CallFitsEval(ops, p, names, ones, Nothing, s);
  }

  /** A call followed by nothing overflows no counter if neither entering nor running the child does. */
  lemma CallFitsEval<V, M>(ops: Backend<V, M>, p: Prog, env: seq<Wire>, credits: seq<nat>, outer: Ledger,
                           s: State<V, M>)
    requires p.Call? && p.next.Done? && |credits| == Arity(p)
    requires var xs, childCredits := ResolveAll(env, p.ins), UsesFrom(p.next, |env|, Arity(p.child), credits);
             && CallFits(p.child, xs, childCredits, Rest(p, env, credits, outer))
             && Eval(ops, p.child, xs, childCredits, Rest(p.next, env, credits, outer), s) != Failure(CreditOverflow)
    ensures Eval(ops, p, env, credits, outer, s) != Failure(CreditOverflow)
  {
    hide CallFits, Rest, UsesFrom;
    var r := Eval(ops, p.child, ResolveAll(env, p.ins), UsesFrom(p.next, |env|, Arity(p.child), credits),
                  Rest(p.next, env, credits, outer), s);
    if r.Success? {
      Streaming.EvalDone(ops, p.next, env + r.value.outs, credits, outer, r.value.state);
    }
  }

  // ----- end to end

  /** Streaming execution of a call of the adder adds. */
  method StreamingAdd(key: Key, a: seq<bool>, b: seq<bool>, capacity: nat) returns (sum: seq<bool>, live: nat)
    requires |a| == |b| > 0 && capacity > 0 && key != Streaming.ROOT_KEY
    ensures |sum| == |a| + 1 && Num(sum) == Num(a) + Num(b) && live == 0
  {
    var p := AddCall(key, |a|);
    AdderFits(ExecuteOps(), 0, key, |a|, a + b);
    ghost var expected := AddCallMeaning(key, a, b);
    hide Eval, Plain, Adder;
    ghost var o := PlainRuns(p, a + b);
    sum, live := StreamingExecute(p, a + b, capacity, AddLibrary(key, |a|), o);
  }

  /** Garbling a call of the adder and evaluating it adds, and gives the active labels of the sum's bits. */
  method GarbledAdd(key: Key, a: seq<bool>, b: seq<bool>, labels: seq<Garbling.Label>, k: Garbling.Secrets,
                    capacity: nat)
    returns (garbled: seq<Garbling.Label>, evaluated: seq<Garbling.EvaluatedWire>)
    requires |a| == |b| > 0 && capacity > 0 && |labels| == 2 * |a| && key != Streaming.ROOT_KEY
    ensures |garbled| == |evaluated| == |a| + 1
    ensures Num(seq<bool>(|evaluated|, j requires 0 <= j < |evaluated| => evaluated[j].value)) == Num(a) + Num(b)
    ensures forall j :: 0 <= j < |evaluated| ==>
              evaluated[j].active == Garbling.Select(garbled[j], evaluated[j].value, k.delta)
  {
    var p := AddCall(key, |a|);
    AdderFits(ExecuteOps(), 0, key, |a|, a + b);
    ghost var sum := AddCallMeaning(key, a, b);
    hide Garbling.Select, Eval, Plain, Adder;
    ghost var o := PlainRuns(p, a + b);
    var garbler, evaluator;
    garbled, garbler, evaluated, evaluator :=
      Garbling.GarbleThenEvaluate(p, a + b, labels, k, [], capacity, AddLibrary(key, |a|), o);
    assert sum == seq<bool>(|evaluated|, j requires 0 <= j < |evaluated| => evaluated[j].value);
  }
}
