/**
 * The direct evaluator: what a circuit means for a backend when no wire is ever freed.
 *
 * A backend is what the source's circuit-mode trait asks for: values for the constants, and what
 * one gate does. The evaluator keeps every wire it ever issued in `cells`; wire `Slot(a)` is cell
 * `a` for good. It is the specification of the streaming run.
 */
module Direct {
  import opened Wrappers
  import opened Gates
  import opened Storage
  import opened Programs
  import ComponentMeta

  /**
   * `step` evaluates a gate whose output is read somewhere, and may fail; `skip` is what
   * remains of a gate whose output is not.
   */
  datatype Backend<!V, !M> = Backend(
    falseValue: M -> V,
    trueValue: M -> V,
    skip: M -> M,
    step: (M, GateType, V, V) -> Option<(M, V)>)

  datatype Fault = MissingWire | Uninitialised | DeadWrite | ConstantWrite | CreditOverflow | BackendFault

  datatype State<V, M> = State(cells: seq<Option<V>>, mode: M)

  datatype Outcome<V, M> = Outcome(state: State<V, M>, outs: seq<Wire>)

  function Read<V, M>(ops: Backend<V, M>, s: State<V, M>, w: Wire): Result<V, Fault> {
    match w
    case FalseWire => Success(ops.falseValue(s.mode))
    case TrueWire => Success(ops.trueValue(s.mode))
    case Unreachable => Failure(MissingWire)
    case Slot(a) =>
      if a >= |s.cells| then Failure(MissingWire)
      else if s.cells[a].None? then Failure(Uninitialised)
      else Success(s.cells[a].value)
  }

  /** Every wire passed to a child must already hold a value. */
  predicate Readable<V>(cells: seq<Option<V>>, ws: seq<Wire>) {
    forall j :: 0 <= j < |ws| ==>
      match ws[j]
      case Slot(a) => a < |cells| && cells[a].Some?
      case Unreachable => false
      case _ => true
  }

  /**
   * The write of a gate. `live` tells whether the output cell still has a reader; writing a cell
   * that has none left is a fault, because its slot is gone.
   */
  function WriteCell<V, M>(ops: Backend<V, M>, s: State<V, M>, gt: GateType, x: V, y: V, c: Wire,
                           live: bool): Result<State<V, M>, Fault> {
    match c
    case Unreachable => Success(s.(mode := ops.skip(s.mode)))
    case Slot(i) =>
      (match ops.step(s.mode, gt, x, y)
       case None => Failure(BackendFault)
       case Some((mode, v)) =>
         if live && i < |s.cells| then Success(State(s.cells[i := Some(v)], mode)) else Failure(DeadWrite))
    case _ => Failure(ConstantWrite)
  }

  /** One gate: two reads and a write. */
  function GateStep<V, M>(ops: Backend<V, M>, s: State<V, M>, gt: GateType, a: Wire, b: Wire, c: Wire,
                          live: bool): Result<State<V, M>, Fault> {
    var x :- Read(ops, s, a);
    var y :- Read(ops, s, b);
    WriteCell(ops, s, gt, x, y, c, live)
  }

  /** The uses of wire `a` outside the running frame. */
  type Ledger = nat -> nat

  /** A new name: without readers it gets the sentinel, otherwise a new cell. */
  function NewWire<V>(cells: seq<Option<V>>, uses: nat): (seq<Option<V>>, Wire) {
    if uses == 0 then (cells, Unreachable) else (cells + [None], Slot(|cells|))
  }

  /** The 16-bit counters of a child's frame and of its topped-up input wires do not overflow. */
  ghost predicate CallFits(child: Prog, ins: seq<Wire>, credits: seq<nat>, before: Ledger)
    requires |credits| == Arity(child)
  {
    && ComponentMeta.Fits(child, |ins|, credits)
    && forall j :: 0 <= j < |ins| && ins[j].Slot? ==>
         before(ins[j].index) + Future(child, ins, credits, ins[j].index) <= MAX_CREDITS
  }

  /** The uses of a wire as seen from a child: by the rest of the caller, and beyond. */
  function Rest(p: Prog, env: seq<Wire>, credits: seq<nat>, outer: Ledger): Ledger
    requires |credits| == Arity(p)
  {
    a => Future(p, env, credits, a) + outer(a)
  }

  /**
   * Runs body `p` whose names so far stand for `env`. `credits` are the caller's reads of its
   * outputs, and `outer` counts all uses outside this frame.
   */
  ghost function Eval<V, M>(ops: Backend<V, M>, p: Prog, env: seq<Wire>, credits: seq<nat>, outer: Ledger,
                            s: State<V, M>): Result<Outcome<V, M>, Fault>
    requires |credits| == Arity(p)
    decreases p
  {
    match p
    case Done(outs) => Success(Outcome(s, ResolveAll(env, outs)))
    case Issue(next) =>
      var (cells, w) := NewWire(s.cells, Uses(next, |env|, credits));
      Eval(ops, next, env + [w], credits, outer, s.(cells := cells))
    case Gate(gt, a, b, c, next) =>
      var z := Resolve(env, Slot(c));
      var live := z.Slot? && Rest(next, env, credits, outer)(z.index) > 0;
      var s' :- GateStep(ops, s, gt, Resolve(env, a), Resolve(env, b), z, live);
      Eval(ops, next, env, credits, outer, s')
    case Call(key, ins, child, next) =>
      var passed := ResolveAll(env, ins);
      if !Readable(s.cells, passed) then Failure(Uninitialised)
      else
        var childCredits := UsesFrom(next, |env|, Arity(child), credits);
        if !CallFits(child, passed, childCredits, Rest(p, env, credits, outer)) then Failure(CreditOverflow)
        else
          var r :- Eval(ops, child, passed, childCredits, Rest(next, env, credits, outer), s);
          Eval(ops, next, env + r.outs, credits, outer, r.state)
  }

  /** The number of outputs is the arity. */
  lemma {:induction false} EvalArity<V, M>(ops: Backend<V, M>, p: Prog, env: seq<Wire>, credits: seq<nat>,
                                           outer: Ledger, s: State<V, M>)
    requires |credits| == Arity(p)
    ensures var r := Eval(ops, p, env, credits, outer, s);
            r.Success? ==> |r.value.outs| == Arity(p) && |s.cells| <= |r.value.state.cells|
    decreases p
  {
    match p
    case Done(outs) =>
    case Issue(next) =>
      var (cells, w) := NewWire(s.cells, Uses(next, |env|, credits));
      EvalArity(ops, next, env + [w], credits, outer, s.(cells := cells));
    case Gate(gt, a, b, c, next) =>
      var z := Resolve(env, Slot(c));
      var live := z.Slot? && Rest(next, env, credits, outer)(z.index) > 0;
      var s' := GateStep(ops, s, gt, Resolve(env, a), Resolve(env, b), z, live);
      if s'.Success? {
        EvalArity(ops, next, env, credits, outer, s'.value);
      }
    case Call(key, ins, child, next) =>
      var passed := ResolveAll(env, ins);
      var childCredits := UsesFrom(next, |env|, Arity(child), credits);
      var r := Eval(ops, child, passed, childCredits, Rest(next, env, credits, outer), s);
      EvalArity(ops, child, passed, childCredits, Rest(next, env, credits, outer), s);
      if r.Success? {
        EvalArity(ops, next, env + r.value.outs, credits, outer, r.value.state);
      }
  }

  // ----- whole circuits

  ghost const Nothing: Ledger := a => 0

  function Ones(n: nat): (r: seq<nat>)
    ensures |r| == n && forall i :: 0 <= i < n ==> r[i] == 1
  {
    seq<nat>(n, i => 1)
  }

  function Names(n: nat): (r: seq<Wire>)
    ensures |r| == n && forall i :: 0 <= i < n ==> r[i] == Slot(i)
  {
    seq(n, i requires 0 <= i < n => Slot(i))
  }

  function Inputs<V>(inputs: seq<V>): (r: seq<Option<V>>)
    ensures |r| == |inputs| && forall i :: 0 <= i < |inputs| ==> r[i] == Some(inputs[i])
  {
    seq(|inputs|, i requires 0 <= i < |inputs| => Some(inputs[i]))
  }

  /** The direct evaluation of a whole circuit: each input and each output is read once from outside. */
  ghost function EvalRoot<V, M>(ops: Backend<V, M>, mode: M, p: Prog, inputs: seq<V>): Result<Outcome<V, M>, Fault> {
    Eval(ops, p, Names(|inputs|), Ones(Arity(p)), Nothing, State(Inputs(inputs), mode))
  }

  /** No 16-bit counter of the root frame overflows; inputs have one read more. */
  ghost predicate RootFits(p: Prog, n: nat) {
    && ComponentMeta.Fits(p, n, Ones(Arity(p)))
    && forall i :: 0 <= i < n ==> Uses(p, i, Ones(Arity(p))) < MAX_CREDITS
  }
}
