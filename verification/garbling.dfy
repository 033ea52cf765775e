/**
 * Half-gates garbling and evaluation as backends, and the proof that evaluating what was garbled
 * gives the labels and bits of the boolean run.
 */
module Garbling {
  import opened Wrappers
  import opened Gates
  import opened Storage
  import opened Programs
  import opened Direct
  import opened Simulation
  import Bits
  import Execute
  import Streaming

  const LABEL_BITS: nat := 128

  /** A label is a 128-bit word. */
  type Label = s: seq<bool> | |s| == LABEL_BITS witness seq(LABEL_BITS, i => false)

  /** A gate hasher with its seed inside: the hash of a label under a gate index. */
  type Hash = (Label, nat) -> Label

  /** Labels combine by XOR. */
  function Mix(a: Label, b: Label): Label {
    seq(LABEL_BITS, i requires 0 <= i < LABEL_BITS => a[i] != b[i])
  }

  /** The label of a wire that carries `v`. */
  function Select(label0: Label, v: bool, delta: Label): Label {
    if v then Mix(label0, delta) else label0
  }

  /** The zero label of the output and the ciphertext of a gate; free gates have none. */
  function GarbleGate(hash: Hash, gt: GateType, a0: Label, b0: Label, delta: Label, id: nat): (Label, Option<Label>) {
    match gt
    case Xor => (Mix(a0, b0), None)
    case Xnor => (Mix(Mix(a0, b0), delta), None)
    case Not => (Mix(a0, delta), None)
    case _ =>
      var al := AlphasConst(gt);
      var selected, other := if al.a then Mix(a0, delta) else a0, if al.a then a0 else Mix(a0, delta);
      var hSelected, hOther := hash(selected, id), hash(other, id);
      var bSel := if al.b then Mix(b0, delta) else b0;
      (if al.c then Mix(hSelected, delta) else hSelected, Some(Mix(Mix(hSelected, hOther), bSel)))
  }

  /** The active label of the output; the ciphertext is not looked at for free gates. */
  function DegarbleGate(hash: Hash, gt: GateType, ct: Label, a: Label, va: bool, b: Label, id: nat): Label {
    match gt
    case Xor => Mix(a, b)
    case Xnor => Mix(a, b)
    case Not => a
    case _ =>
      var h := hash(a, id);
      if va != AlphasConst(gt).a then Mix(Mix(ct, h), b) else h
  }

  /** `Mix` is addition of 128-bit numbers without carries. */
  lemma MixNum(a: Label, b: Label, both: Label)
    requires forall i :: 0 <= i < LABEL_BITS ==> both[i] == (a[i] && b[i])
    ensures Bits.Num(Mix(a, b)) + 2 * Bits.Num(both) == Bits.Num(a) + Bits.Num(b)
  {
    Bits.NumXor(a, b, Mix(a, b), both);
  }

  /** The label of zeros is the neutral element, and every label is its own inverse. */
  lemma MixZero(a: Label, zero: Label)
    requires Bits.Num(zero) == 0
    ensures Mix(a, zero) == a && Mix(a, a) == zero
  {
    Bits.NumZeroBits(zero);
  }

  lemma Swap(a: Label, b: Label, c: Label)
    ensures Mix(Mix(a, b), c) == Mix(Mix(a, c), b)
  {
  }

  lemma Associate(a: Label, b: Label, c: Label)
    ensures Mix(Mix(a, b), c) == Mix(a, Mix(b, c))
  {
  }

  lemma Cancel(a: Label, d: Label)
    ensures Mix(Mix(a, d), d) == a
  {
  }

  lemma Unmask(h: Label, h': Label, b: Label, b': Label)
    ensures Mix(Mix(Mix(Mix(h, h'), b), h'), b') == Mix(h, Mix(b, b'))
  {
    hide Mix;
    Swap(h, h', b);
    Cancel(Mix(h, b), h');
    Associate(h, b, b');
  }

  lemma Difference(b: Label, d: Label, h: Label)
    ensures Mix(h, Mix(b, b)) == h
    ensures Mix(Mix(b, d), b) == d && Mix(b, Mix(b, d)) == d
  {
  }

  lemma FreeGates(a: Label, b: Label, d: Label)
    ensures Mix(Mix(a, d), b) == Mix(Mix(a, b), d) && Mix(a, Mix(b, d)) == Mix(Mix(a, b), d)
    ensures Mix(Mix(a, d), Mix(b, d)) == Mix(a, b)
  {
  }

  /** The algebra of one AND-like gate: `flip` says the evaluator holds the other label of wire a. */
  lemma HalfGate(h: Label, h': Label, b0: Label, d: Label, flip: bool, vb: bool, beta: bool, gamma: bool)
    ensures (if flip then Mix(Mix(Mix(Mix(h, h'), if beta then Mix(b0, d) else b0), h'), Select(b0, vb, d)) else h)
         == Select(if gamma then Mix(h, d) else h, (flip && (vb != beta)) != gamma, d)
  {
    hide Mix;
    Unmask(h, h', if beta then Mix(b0, d) else b0, Select(b0, vb, d));
    Difference(b0, d, h);
    Difference(Mix(b0, d), d, h);
    Cancel(h, d);
  }

  lemma FreeInverts(hash: Hash, gt: GateType, a0: Label, b0: Label, delta: Label, id: nat, va: bool, vb: bool,
                    ct: Label)
    requires IsFree(gt)
    ensures GarbleGate(hash, gt, a0, b0, delta, id).1.None?
    ensures DegarbleGate(hash, gt, ct, Select(a0, va, delta), va, Select(b0, vb, delta), id)
         == Select(GarbleGate(hash, gt, a0, b0, delta, id).0, Truth(gt, va, vb), delta)
  {
    hide Mix;
    FreeGates(a0, b0, delta);
    Cancel(Mix(a0, b0), delta);
    Cancel(a0, delta);
  }

  /** The two branches that all non-free gates share. */
  lemma NonFree(hash: Hash, gt: GateType, a0: Label, b0: Label, delta: Label, id: nat, ct: Label, a: Label, va: bool,
                b: Label)
    requires !IsFree(gt)
    ensures var al := AlphasConst(gt);
            var h := hash(if al.a then Mix(a0, delta) else a0, id);
            var h' := hash(if al.a then a0 else Mix(a0, delta), id);
            var ct' := Mix(Mix(h, h'), if al.b then Mix(b0, delta) else b0);
            GarbleGate(hash, gt, a0, b0, delta, id) == (if al.c then Mix(h, delta) else h, Some(ct'))
    ensures DegarbleGate(hash, gt, ct, a, va, b, id)
         == if va != AlphasConst(gt).a then Mix(Mix(ct, hash(a, id)), b) else hash(a, id)
    ensures var al := AlphasConst(gt);
            forall vb :: Truth(gt, va, vb) == (((va != al.a) && (vb != al.b)) != al.c)
  {
    hide Mix;
  }

  /**
   * Degarbling with the active labels of any two bits gives the active label of the gate's truth
   * function on them; exactly the non-free gates have a ciphertext.
   */
  lemma DegarbleInverts(hash: Hash, gt: GateType, a0: Label, b0: Label, delta: Label, id: nat, va: bool, vb: bool,
                        ct: Label)
    requires GarbleGate(hash, gt, a0, b0, delta, id).1.Some? ==> ct == GarbleGate(hash, gt, a0, b0, delta, id).1.value
    ensures GarbleGate(hash, gt, a0, b0, delta, id).1.Some? <==> !IsFree(gt)
    ensures DegarbleGate(hash, gt, ct, Select(a0, va, delta), va, Select(b0, vb, delta), id)
         == Select(GarbleGate(hash, gt, a0, b0, delta, id).0, Truth(gt, va, vb), delta)
  {
    hide Mix, GarbleGate, DegarbleGate, Truth, AlphasConst;
    if IsFree(gt) {
      FreeInverts(hash, gt, a0, b0, delta, id, va, vb, ct);
    } else {
      var al := AlphasConst(gt);
      var selected, other := if al.a then Mix(a0, delta) else a0, if al.a then a0 else Mix(a0, delta);
      NonFree(hash, gt, a0, b0, delta, id, ct, Select(a0, va, delta), va, Select(b0, vb, delta));
      HalfGate(hash(selected, id), hash(other, id), b0, delta, va != al.a, vb, al.b, al.c);
    }
  }

  // ----- the garbler and the evaluator as backends

  /** What the garbler fixes before the first gate. */
  datatype Secrets = Secrets(hash: Hash, delta: Label, false0: Label, true0: Label)

  /** The garbler counts gates and streams ciphertexts; it stores the zero label of each wire. */
  datatype Garbler = Garbler(index: nat, out: seq<Label>)

  datatype EvaluatedWire = EvaluatedWire(active: Label, value: bool)

  /** The evaluator counts gates and consumes ciphertexts. */
  datatype Evaluator = Evaluator(index: nat, source: seq<Label>)

  function GarbleStep(k: Secrets, m: Garbler, gt: GateType, a: Label, b: Label): (Garbler, Label) {
    var (c0, ct) := GarbleGate(k.hash, gt, a, b, k.delta, m.index);
    (Garbler(m.index + 1, if ct.Some? then m.out + [ct.value] else m.out), c0)
  }

  function EvaluateStep(hash: Hash, m: Evaluator, gt: GateType, a: EvaluatedWire,
                        b: EvaluatedWire): Option<(Evaluator, EvaluatedWire)> {
    if !IsFree(gt) && |m.source| == 0 then None
    else
      var ct := if IsFree(gt) then a.active else m.source[0];
      var c := DegarbleGate(hash, gt, ct, a.active, a.value, b.active, m.index);
      Some((Evaluator(m.index + 1, if IsFree(gt) then m.source else m.source[1..]),
            EvaluatedWire(c, Truth(gt, a.value, b.value))))
  }

  /** An unreachable output still advances the gate index, in both modes. */
  function GarbleOps(k: Secrets): Backend<Label, Garbler> {
    Backend(
      (m: Garbler) => k.false0,
      (m: Garbler) => k.true0,
      (m: Garbler) => Garbler(m.index + 1, m.out),
      (m: Garbler, gt: GateType, a: Label, b: Label) => Some(GarbleStep(k, m, gt, a, b)))
  }

  function EvaluateOps(hash: Hash, falseLabel: Label, trueLabel: Label): Backend<EvaluatedWire, Evaluator> {
    Backend(
      (m: Evaluator) => EvaluatedWire(falseLabel, false),
      (m: Evaluator) => EvaluatedWire(trueLabel, true),
      (m: Evaluator) => Evaluator(m.index + 1, m.source),
      (m: Evaluator, gt: GateType, a: EvaluatedWire, b: EvaluatedWire) => EvaluateStep(hash, m, gt, a, b))
  }

  /** The evaluator for a garbler: the labels of the constants are their active ones. */
  function EvaluatorFor(k: Secrets): Backend<EvaluatedWire, Evaluator> {
    EvaluateOps(k.hash, k.false0, Mix(k.true0, k.delta))
  }

  // ----- what the garbler hashes and streams

  /**
   * A gate that is not free, seen from the evaluator: if the bit of wire a decides the gate, the
   * active label of the output is the hash of a's active label under the gate's index, and the
   * ciphertext is both hashes of a and the label of wire b for the bit that decides the gate.
   */
  lemma AndGateLabels(k: Secrets, m: Garbler, gt: GateType, a: Label, b: Label, va: bool, vb: bool)
    requires !IsFree(gt)
    requires Truth(gt, va, true) == Truth(gt, va, false) && Truth(gt, true, vb) == Truth(gt, false, vb)
    ensures Select(GarbleStep(k, m, gt, a, b).1, Truth(gt, va, vb), k.delta)
         == k.hash(Select(a, va, k.delta), m.index)
    ensures GarbleStep(k, m, gt, a, b).0.out
         == m.out + [Mix(Mix(k.hash(a, m.index), k.hash(Mix(a, k.delta), m.index)), Select(b, vb, k.delta))]
  {
    var h, h' := k.hash(a, m.index), k.hash(Mix(a, k.delta), m.index);
    NonFree(k.hash, gt, a, b, k.delta, m.index, a, a, va, b);
    NonFree(k.hash, gt, a, b, k.delta, m.index, a, a, !va, b);
    MixCommutes(h, h');
    Cancel(h, k.delta);
    Cancel(h', k.delta);
    assert va == AlphasConst(gt).a && vb == AlphasConst(gt).b;
    hide Mix, AlphasConst;
  }

  lemma MixCommutes(a: Label, b: Label)
    ensures Mix(a, b) == Mix(b, a)
  {
  }

  /** A free gate hashes and streams nothing; the active labels of its wires are mixed, or passed on. */
  lemma FreeGateLabels(k: Secrets, m: Garbler, gt: GateType, a: Label, b: Label, va: bool, vb: bool)
    requires IsFree(gt)
    ensures Select(GarbleStep(k, m, gt, a, b).1, Truth(gt, va, vb), k.delta)
         == if gt.Not? then Select(a, va, k.delta) else Mix(Select(a, va, k.delta), Select(b, vb, k.delta))
    ensures GarbleStep(k, m, gt, a, b).0.out == m.out
  {
    hide Mix;
    FreeGates(a, b, k.delta);
    Cancel(Mix(a, b), k.delta);
    Cancel(a, k.delta);
  }

  // ----- lockstep

  ghost function Anything<A, B>(): (A, B) -> bool {
    (a, b) => true
  }

  ghost function Always<A>(): A -> bool {
    a => true
  }

  /** An evaluated wire holds the active label of its value. */
  ghost function Active(delta: Label): (Label, EvaluatedWire) -> bool {
    (l: Label, w: EvaluatedWire) => w.active == Select(l, w.value, delta)
  }

  /** The evaluator is at the garbler's gate index, and its source is what the garbler has still to emit. */
  ghost function Aligned(tape: seq<Label>): (Garbler, Evaluator) -> bool {
    (g: Garbler, e: Evaluator) => e.index == g.index && g.out <= tape && e.source == tape[|g.out|..]
  }

  ghost function Emits(tape: seq<Label>): Garbler -> bool {
    (g: Garbler) => g.out <= tape
  }

  ghost function SameBit(): (EvaluatedWire, bool) -> bool {
    (w: EvaluatedWire, v: bool) => w.value == v
  }

  lemma GarbleMatchesExecute(k: Secrets)
    ensures Matches(Execute.ExecuteOps(), GarbleOps(k), Anything(), Anything(), Always())
  {
  }

  lemma ExecuteMatchesEvaluate(hash: Hash, falseLabel: Label, trueLabel: Label)
    ensures Matches(EvaluateOps(hash, falseLabel, trueLabel), Execute.ExecuteOps(), SameBit(), Anything(), Always())
  {
  }

  /** One gate: the ciphertext the evaluator takes is the one the garbler emitted for it. */
  lemma EvaluateStepMatches(k: Secrets, tape: seq<Label>, g: Garbler, e: Evaluator, gt: GateType,
                            a: Label, b: Label, a': EvaluatedWire, b': EvaluatedWire)
    requires Aligned(tape)(g, e) && Active(k.delta)(a, a') && Active(k.delta)(b, b')
    requires Emits(tape)(GarbleStep(k, g, gt, a, b).0)
    ensures var r := EvaluateStep(k.hash, e, gt, a', b');
            && r.Some?
            && Aligned(tape)(GarbleStep(k, g, gt, a, b).0, r.value.0)
            && Active(k.delta)(GarbleStep(k, g, gt, a, b).1, r.value.1)
  {
    hide Mix, DegarbleGate, Truth;
    var (c0, ct) := GarbleGate(k.hash, gt, a, b, k.delta, g.index);
    var c := if ct.Some? then ct.value else a'.active;
    DegarbleInverts(k.hash, gt, a, b, k.delta, g.index, a'.value, b'.value, c);
    if ct.Some? {
      assert (g.out + [ct.value])[|g.out|] == tape[|g.out|];
      assert tape[|g.out|..][1..] == tape[|g.out| + 1..];
    }
  }

  /** Streams only grow. */
  lemma EmitsBackward(k: Secrets, tape: seq<Label>, g: Garbler, gt: GateType, a: Label, b: Label)
    requires Emits(tape)(GarbleStep(k, g, gt, a, b).0)
    ensures Emits(tape)(g)
  {
    hide GarbleGate;
  }

  lemma GarblerCounts(k: Secrets)
    ensures Counting(GarbleOps(k), (m: Garbler) => m.index)
  {
    hide GarbleGate;
  }

  lemma EvaluateMatchesGarble(k: Secrets, tape: seq<Label>)
    ensures Matches(GarbleOps(k), EvaluatorFor(k), Active(k.delta), Aligned(tape), Emits(tape))
  {
    hide GarbleStep, EvaluateStep, Mix;
    var ops, ops' := GarbleOps(k), EvaluatorFor(k);
    forall m, gt, x, y | ops.step(m, gt, x, y).Some? && Emits(tape)(ops.step(m, gt, x, y).value.0)
      ensures Emits(tape)(m)
    {
      EmitsBackward(k, tape, m, gt, x, y);
    }
    forall m, n, gt, x, y, x', y' | Aligned(tape)(m, n) && Active(k.delta)(x, x') && Active(k.delta)(y, y')
                                 && ops.step(m, gt, x, y).Some? && Emits(tape)(ops.step(m, gt, x, y).value.0)
      ensures ops'.step(n, gt, x', y').Some?
      ensures Aligned(tape)(ops.step(m, gt, x, y).value.0, ops'.step(n, gt, x', y').value.0)
      ensures Active(k.delta)(ops.step(m, gt, x, y).value.1, ops'.step(n, gt, x', y').value.1)
    {
      EvaluateStepMatches(k, tape, m, n, gt, x, y, x', y');
    }
  }

  /**
   * The constants: the garbler has the zero labels drawn for them, and the evaluator the active labels
   * of their values.
   */
  lemma ConstantLabels(k: Secrets, s: State<Label, Garbler>, e: State<EvaluatedWire, Evaluator>)
    ensures Read(GarbleOps(k), s, FalseWire) == Success(k.false0)
    ensures Read(GarbleOps(k), s, TrueWire) == Success(k.true0)
    ensures Read(EvaluatorFor(k), e, FalseWire) == Success(EvaluatedWire(Select(k.false0, false, k.delta), false))
    ensures Read(EvaluatorFor(k), e, TrueWire) == Success(EvaluatedWire(Select(k.true0, true, k.delta), true))
  {
    hide Mix;
  }

  // ----- whole circuits

  function ActiveInputs(labels: seq<Label>, bits: seq<bool>, delta: Label): (r: seq<EvaluatedWire>)
    requires |labels| == |bits|
    ensures |r| == |bits|
    ensures forall i :: 0 <= i < |bits| ==> r[i] == EvaluatedWire(Select(labels[i], bits[i], delta), bits[i])
  {
    seq(|bits|, i requires 0 <= i < |bits| => EvaluatedWire(Select(labels[i], bits[i], delta), bits[i]))
  }

  /**
   * Whenever the boolean run of a circuit succeeds, so does its garbling, and so does its evaluation
   * on what was garbled followed by anything: the three end with the same wires, wire by wire the
   * evaluator has the boolean value and its active label, and it has consumed exactly what the
   * garbler emitted. Both count every gate of the whole tree of calls.
   */
  lemma GarblingSimulates(p: Prog, bits: seq<bool>, labels: seq<Label>, k: Secrets, extra: seq<Label>,
                          o: Outcome<bool, nat>)
    returns (og: Outcome<Label, Garbler>, oe: Outcome<EvaluatedWire, Evaluator>)
    requires |labels| == |bits| && EvalRoot(Execute.ExecuteOps(), 0, p, bits) == Success(o)
    ensures EvalRoot(GarbleOps(k), Garbler(0, []), p, labels) == Success(og)
    ensures EvalRoot(EvaluatorFor(k), Evaluator(0, og.state.mode.out + extra), p, ActiveInputs(labels, bits, k.delta))
         == Success(oe)
    ensures og.outs == o.outs && oe.outs == o.outs
    ensures CellsMatch(o.state.cells, og.state.cells, Anything())
    ensures CellsMatch(og.state.cells, oe.state.cells, Active(k.delta))
    ensures CellsMatch(oe.state.cells, o.state.cells, SameBit())
    ensures oe.state.mode == Evaluator(og.state.mode.index, extra) && og.state.mode.index == GateCount(p)
  {
    hide Mix, Matches, Eval, Counting;
    var env, ones := Names(|bits|), Ones(Arity(p));
    var s, g := State(Inputs(bits), 0), State(Inputs(labels), Garbler(0, []));
    GarbleMatchesExecute(k);
    og := RunMatches(Execute.ExecuteOps(), GarbleOps(k), Anything(), Anything(), Always(), p, env, ones, Nothing, s, g,
                     o);
    GarblerCounts(k);
    RunCounts(GarbleOps(k), (m: Garbler) => m.index, p, env, ones, Nothing, g, og);
    var tape := og.state.mode.out + extra;
    var e := State(Inputs(ActiveInputs(labels, bits, k.delta)), Evaluator(0, tape));
    EvaluateMatchesGarble(k, tape);
    oe := RunMatches(GarbleOps(k), EvaluatorFor(k), Active(k.delta), Aligned(tape), Emits(tape), p, env, ones, Nothing,
                     g, e, og);
    ExecuteMatchesEvaluate(k.hash, k.false0, Mix(k.true0, k.delta));
    var o' := RunMatches(EvaluatorFor(k), Execute.ExecuteOps(), SameBit(), Anything(), Always(), p, env, ones, Nothing,
                         e, s, oe);
  }

  /** The labels and bits that the three runs hold for one wire. */
  lemma OutputMatches(k: Secrets, o: Outcome<bool, nat>, og: Outcome<Label, Garbler>,
                      oe: Outcome<EvaluatedWire, Evaluator>, w: Wire)
    requires CellsMatch(o.state.cells, og.state.cells, Anything())
    requires CellsMatch(og.state.cells, oe.state.cells, Active(k.delta))
    requires CellsMatch(oe.state.cells, o.state.cells, SameBit())
    requires Read(Execute.ExecuteOps(), o.state, w).Success?
    ensures Read(GarbleOps(k), og.state, w).Success? && Read(EvaluatorFor(k), oe.state, w).Success?
    ensures var v := Read(Execute.ExecuteOps(), o.state, w).value;
            Read(EvaluatorFor(k), oe.state, w).value
            == EvaluatedWire(Select(Read(GarbleOps(k), og.state, w).value, v, k.delta), v)
  {
    hide Mix;
  }

  /**
   * A circuit with one gate whose output nothing reads: the garbler counts the gate and the boolean
   * run does not.
   */
  lemma UnreadGate(k: Secrets, v: bool, l: Label)
    ensures var p := Issue(Gate(And, Slot(0), Slot(0), 1, Done([Slot(0)])));
            && EvalRoot(Execute.ExecuteOps(), 0, p, [v]) == Success(Outcome(State([Some(v)], 0), [Slot(0)]))
            && EvalRoot(GarbleOps(k), Garbler(0, []), p, [l])
               == Success(Outcome(State([Some(l)], Garbler(1, [])), [Slot(0)]))
  {
    UnreadGateRuns(Execute.ExecuteOps(), 0, v);
    UnreadGateRuns(GarbleOps(k), Garbler(0, []), l);
  }

  lemma UnreadGateRuns<V, M>(ops: Backend<V, M>, mode: M, v: V)
    ensures EvalRoot(ops, mode, Issue(Gate(And, Slot(0), Slot(0), 1, Done([Slot(0)]))), [v])
         == Success(Outcome(State([Some(v)], ops.skip(mode)), [Slot(0)]))
  {
    var done := Done([Slot(0)]);
    var gate := Gate(And, Slot(0), Slot(0), 1, done);
    var s, env, ones := State(Inputs([v]), mode), Names(1) + [Unreachable], Ones(1);
    assert [Slot(0)][..0] == [] && Uses(done, 1, ones) == 0 && Uses(gate, 1, ones) == 0;
    Streaming.EvalIssue(ops, Issue(gate), Names(1), ones, Nothing, s);
    assert Read(ops, s, Slot(0)) == Success(v);
    var s' := State(s.cells, ops.skip(mode));
    assert Eval(ops, gate, env, ones, Nothing, s) == Eval(ops, done, env, ones, Nothing, s');
    Streaming.EvalDone(ops, done, env, ones, Nothing, s');
    assert ResolveAll(env, [Slot(0)]) == [Slot(0)] && Inputs([v]) == [Some(v)];
  }

  /** Whether a circuit runs does not depend on the bits it runs on. */
  lemma RunsForAllInputs(p: Prog, bits: seq<bool>, bits': seq<bool>, o: Outcome<bool, nat>)
    returns (o': Outcome<bool, nat>)
    requires |bits| == |bits'| && Streaming.Runs(Execute.ExecuteOps(), 0, p, bits, o)
    ensures Streaming.Runs(Execute.ExecuteOps(), 0, p, bits', o') && o'.outs == o.outs
  {
    hide Matches, Eval, RootFits, WellFormed;
    ExecuteMatchesExecute();
    var env, ones := Names(|bits|), Ones(Arity(p));
    var s, s' := State(Inputs(bits), 0), State(Inputs(bits'), 0);
    o' := RunMatches(Execute.ExecuteOps(), Execute.ExecuteOps(), Anything(), Anything(), Always(), p, env, ones,
                     Nothing, s, s', o);
    ReadableMatches(o.state.cells, o'.state.cells, Anything(), o.outs);
  }

  lemma ExecuteMatchesExecute()
    ensures Matches(Execute.ExecuteOps(), Execute.ExecuteOps(), Anything(), Anything(), Always())
  {
  }

  /**
   * Garbles a circuit and evaluates the result, both with bounded memory. For every circuit that
   * runs on the bits, all secrets and all input labels: the evaluator gets the output bits of the
   * boolean run, which are the plain meaning if there is one, and the active labels of the
   * garbler's output wires; both count the same gates, and of the ciphertext source exactly the
   * garbler's stream is consumed.
   */
  method GarbleThenEvaluate(p: Prog, bits: seq<bool>, labels: seq<Label>, k: Secrets, extra: seq<Label>, capacity: nat,
                            ghost lib: Streaming.Library, ghost o: Outcome<bool, nat>)
    returns (garbled: seq<Label>, garbler: Garbler, evaluated: seq<EvaluatedWire>, evaluator: Evaluator)
    requires capacity > 0 && Streaming.Runs(Execute.ExecuteOps(), 0, p, bits, o) && |labels| == |bits|
    requires KeysAgree(p, lib) && Streaming.ROOT_KEY in lib && lib[Streaming.ROOT_KEY] == (p, |bits|)
    ensures |garbled| == |evaluated| == |o.outs|
    ensures forall j :: 0 <= j < |evaluated| ==>
              var v := Execute.OutputsOf(o)[j];
              evaluated[j] == EvaluatedWire(Select(garbled[j], v, k.delta), v)
    ensures Execute.Meaning(p, bits).Some? ==> Execute.Meaning(p, bits) == Some(Execute.OutputsOf(o))
    ensures evaluator == Evaluator(garbler.index, extra) && garbler.index == GateCount(p)
  {
    hide Mix, Eval, Select;
    if Execute.Meaning(p, bits).Some? {
      Execute.RootRefines(p, bits, o);
      assert Execute.OutputsOf(o) == Execute.Meaning(p, bits).value;
    }
    ghost var og, oe := GarblingSimulates(p, bits, labels, k, extra, o);
    ReadableMatches(o.state.cells, og.state.cells, Anything(), o.outs);
    ReadableMatches(og.state.cells, oe.state.cells, Active(k.delta), o.outs);
    var labelValues, live;
    labelValues, garbled, garbler, live := Streaming.RunStreaming(GarbleOps(k), Garbler(0, []), p, labels, capacity,
                                                                  lib, og);
    var active := ActiveInputs(labels, bits, k.delta);
    var wireValues;
    wireValues, evaluated, evaluator, live :=
      Streaming.RunStreaming(EvaluatorFor(k), Evaluator(0, garbler.out + extra), p, active, capacity, lib, oe);
    forall j | 0 <= j < |o.outs|
      ensures var v := Execute.OutputsOf(o)[j];
              evaluated[j] == EvaluatedWire(Select(garbled[j], v, k.delta), v)
    {
      OutputMatches(k, o, og, oe, o.outs[j]);
    }
  }
}
