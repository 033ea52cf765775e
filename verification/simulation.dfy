/**
 * Two backends running the same circuit in lockstep.
 *
 * Which wires exist, which are read, and which gates are skipped never depend on values. So a
 * relation between the values and modes of two backends that one gate keeps is kept by every run.
 */
module Simulation {
  import opened Wrappers
  import opened Gates
  import opened Storage
  import opened Programs
  import opened Direct

  /**
   * One gate of the first backend is matched by the second, as long as the first is headed for a
   * mode with `possible`; a mode reached from another that is not possible is not possible either.
   */
  ghost predicate Matches<V(!new), M(!new), W(!new), N(!new)>(
    ops: Backend<V, M>, ops': Backend<W, N>, values: (V, W) -> bool, modes: (M, N) -> bool, possible: M -> bool)
  {
    && (forall m, n :: modes(m, n) ==>
          && values(ops.falseValue(m), ops'.falseValue(n))
          && values(ops.trueValue(m), ops'.trueValue(n))
          && (possible(ops.skip(m)) ==> possible(m) && modes(ops.skip(m), ops'.skip(n))))
    && (forall m :: possible(ops.skip(m)) ==> possible(m))
    && (forall m, gt, x, y :: ops.step(m, gt, x, y).Some? && possible(ops.step(m, gt, x, y).value.0) ==> possible(m))
    && (forall m, n, gt, x, y, x', y' ::
          modes(m, n) && values(x, x') && values(y, y')
          && ops.step(m, gt, x, y).Some? && possible(ops.step(m, gt, x, y).value.0) ==>
            && ops'.step(n, gt, x', y').Some?
            && modes(ops.step(m, gt, x, y).value.0, ops'.step(n, gt, x', y').value.0)
            && values(ops.step(m, gt, x, y).value.1, ops'.step(n, gt, x', y').value.1))
  }

  ghost predicate CellsMatch<V, W>(cells: seq<Option<V>>, cells': seq<Option<W>>, values: (V, W) -> bool) {
    && |cells| == |cells'|
    && forall a :: 0 <= a < |cells| ==>
         match (cells[a], cells'[a])
         case (None, None) => true
         case (Some(v), Some(w)) => values(v, w)
         case _ => false
  }

  ghost predicate StatesMatch<V, M, W, N>(s: State<V, M>, t: State<W, N>, values: (V, W) -> bool,
                                          modes: (M, N) -> bool) {
    CellsMatch(s.cells, t.cells, values) && modes(s.mode, t.mode)
  }

  lemma ReadMatches<V(!new), M(!new), W(!new), N(!new)>(
    ops: Backend<V, M>, ops': Backend<W, N>, values: (V, W) -> bool, modes: (M, N) -> bool, possible: M -> bool,
    s: State<V, M>, t: State<W, N>, w: Wire)
    requires Matches(ops, ops', values, modes, possible) && StatesMatch(s, t, values, modes)
    requires Read(ops, s, w).Success?
    ensures Read(ops', t, w).Success? && values(Read(ops, s, w).value, Read(ops', t, w).value)
  {
  }

  lemma GateMatches<V(!new), M(!new), W(!new), N(!new)>(
    ops: Backend<V, M>, ops': Backend<W, N>, values: (V, W) -> bool, modes: (M, N) -> bool, possible: M -> bool,
    s: State<V, M>, t: State<W, N>, gt: GateType, a: Wire, b: Wire, c: Wire, live: bool, s': State<V, M>)
    requires Matches(ops, ops', values, modes, possible) && StatesMatch(s, t, values, modes)
    requires GateStep(ops, s, gt, a, b, c, live) == Success(s') && possible(s'.mode)
    ensures GateStep(ops', t, gt, a, b, c, live).Success?
    ensures StatesMatch(s', GateStep(ops', t, gt, a, b, c, live).value, values, modes)
  {
    ReadMatches(ops, ops', values, modes, possible, s, t, a);
    ReadMatches(ops, ops', values, modes, possible, s, t, b);
    WriteMatches(ops, ops', values, modes, possible, s, t, gt, Read(ops, s, a).value, Read(ops, s, b).value,
                 Read(ops', t, a).value, Read(ops', t, b).value, c, live, s');
  }

  lemma WriteMatches<V(!new), M(!new), W(!new), N(!new)>(
    ops: Backend<V, M>, ops': Backend<W, N>, values: (V, W) -> bool, modes: (M, N) -> bool, possible: M -> bool,
    s: State<V, M>, t: State<W, N>, gt: GateType, x: V, y: V, x': W, y': W, c: Wire, live: bool, s': State<V, M>)
    requires Matches(ops, ops', values, modes, possible) && StatesMatch(s, t, values, modes)
    requires values(x, x') && values(y, y')
    requires WriteCell(ops, s, gt, x, y, c, live) == Success(s') && possible(s'.mode)
    ensures WriteCell(ops', t, gt, x', y', c, live).Success?
    ensures StatesMatch(s', WriteCell(ops', t, gt, x', y', c, live).value, values, modes)
  {
    if c.Slot? {
      assert ops.step(s.mode, gt, x, y).Some? && ops.step(s.mode, gt, x, y).value.0 == s'.mode;
      assert ops'.step(t.mode, gt, x', y').Some?;
    }
  }

  lemma GateBackward<V(!new), M(!new), W(!new), N(!new)>(
    ops: Backend<V, M>, ops': Backend<W, N>, values: (V, W) -> bool, modes: (M, N) -> bool, possible: M -> bool,
    s: State<V, M>, gt: GateType, a: Wire, b: Wire, c: Wire, live: bool, s': State<V, M>)
    requires Matches(ops, ops', values, modes, possible)
    requires GateStep(ops, s, gt, a, b, c, live) == Success(s') && possible(s'.mode)
    ensures possible(s.mode)
  {
  }

  /** A run that ends in a possible mode started in one. */
  lemma {:induction false} RunBackward<V(!new), M(!new), W(!new), N(!new)>(
    ops: Backend<V, M>, ops': Backend<W, N>, values: (V, W) -> bool, modes: (M, N) -> bool, possible: M -> bool,
    p: Prog, env: seq<Wire>, credits: seq<nat>, outer: Ledger, s: State<V, M>, o: Outcome<V, M>)
    requires Matches(ops, ops', values, modes, possible) && |credits| == Arity(p)
    requires Eval(ops, p, env, credits, outer, s) == Success(o) && possible(o.state.mode)
    ensures possible(s.mode)
    decreases p
  {
    hide Matches;
    match p
    case Done(_) =>
    case Issue(next) =>
      var (cells, w) := NewWire(s.cells, Uses(next, |env|, credits));
      RunBackward(ops, ops', values, modes, possible, next, env + [w], credits, outer, s.(cells := cells), o);
    case Gate(gt, a, b, c, next) =>
      var z := Resolve(env, Slot(c));
      var live := z.Slot? && Rest(next, env, credits, outer)(z.index) > 0;
      var s' := GateStep(ops, s, gt, Resolve(env, a), Resolve(env, b), z, live).value;
      RunBackward(ops, ops', values, modes, possible, next, env, credits, outer, s', o);
      GateBackward(ops, ops', values, modes, possible, s, gt, Resolve(env, a), Resolve(env, b), z, live, s');
    case Call(key, ins, child, next) =>
      var xs, childCredits := ResolveAll(env, ins), UsesFrom(next, |env|, Arity(child), credits);
      var rest := Rest(next, env, credits, outer);
      var r := Eval(ops, child, xs, childCredits, rest, s).value;
      RunBackward(ops, ops', values, modes, possible, next, env + r.outs, credits, outer, r.state, o);
      RunBackward(ops, ops', values, modes, possible, child, xs, childCredits, rest, s, r);
  }

  /** A run of the first backend is matched wire by wire by the second. */
  lemma {:induction false} RunMatches<V(!new), M(!new), W(!new), N(!new)>(
    ops: Backend<V, M>, ops': Backend<W, N>, values: (V, W) -> bool, modes: (M, N) -> bool, possible: M -> bool,
    p: Prog, env: seq<Wire>, credits: seq<nat>, outer: Ledger, s: State<V, M>, t: State<W, N>, o: Outcome<V, M>)
    returns (o': Outcome<W, N>)
    requires Matches(ops, ops', values, modes, possible) && |credits| == Arity(p)
    requires StatesMatch(s, t, values, modes)
    requires Eval(ops, p, env, credits, outer, s) == Success(o) && possible(o.state.mode)
    ensures Eval(ops', p, env, credits, outer, t) == Success(o')
    ensures o'.outs == o.outs && StatesMatch(o.state, o'.state, values, modes)
    decreases p
  {
    hide Matches, CellsMatch;
    match p
    case Done(outs) =>
      o' := Outcome(t, ResolveAll(env, outs));
    case Issue(next) =>
      var (cells, w) := NewWire(s.cells, Uses(next, |env|, credits));
      var (cells', w') := NewWire(t.cells, Uses(next, |env|, credits));
      NewWireMatches(s.cells, t.cells, values, Uses(next, |env|, credits));
      o' := RunMatches(ops, ops', values, modes, possible, next, env + [w], credits, outer, s.(cells := cells),
                       t.(cells := cells'), o);
    case Gate(gt, a, b, c, next) =>
      var x, y, z := Resolve(env, a), Resolve(env, b), Resolve(env, Slot(c));
      var live := z.Slot? && Rest(next, env, credits, outer)(z.index) > 0;
      var s' := GateStep(ops, s, gt, x, y, z, live).value;
      RunBackward(ops, ops', values, modes, possible, next, env, credits, outer, s', o);
      GateMatches(ops, ops', values, modes, possible, s, t, gt, x, y, z, live, s');
      o' := RunMatches(ops, ops', values, modes, possible, next, env, credits, outer, s',
                       GateStep(ops', t, gt, x, y, z, live).value, o);
    case Call(key, ins, child, next) =>
      var xs, childCredits := ResolveAll(env, ins), UsesFrom(next, |env|, Arity(child), credits);
      var rest := Rest(next, env, credits, outer);
      var r := Eval(ops, child, xs, childCredits, rest, s).value;
      ReadableMatches(s.cells, t.cells, values, xs);
      RunBackward(ops, ops', values, modes, possible, next, env + r.outs, credits, outer, r.state, o);
      var r' := RunMatches(ops, ops', values, modes, possible, child, xs, childCredits, rest, s, t, r);
      o' := RunMatches(ops, ops', values, modes, possible, next, env + r.outs, credits, outer, r.state, r'.state, o);
  }

  lemma NewWireMatches<V, W>(cells: seq<Option<V>>, cells': seq<Option<W>>, values: (V, W) -> bool, uses: nat)
    requires CellsMatch(cells, cells', values)
    ensures NewWire(cells, uses).1 == NewWire(cells', uses).1
    ensures CellsMatch(NewWire(cells, uses).0, NewWire(cells', uses).0, values)
  {
  }

  lemma ReadableMatches<V, W>(cells: seq<Option<V>>, cells': seq<Option<W>>, values: (V, W) -> bool, ws: seq<Wire>)
    requires CellsMatch(cells, cells', values) && Readable(cells, ws)
    ensures Readable(cells', ws)
  {
  }

  // ----- counting gates

  /** Every gate adds one to the index of the mode, whether its output is read or not. */
  ghost predicate Counting<V(!new), M(!new)>(ops: Backend<V, M>, index: M -> nat) {
    && (forall m :: index(ops.skip(m)) == index(m) + 1)
    && (forall m, gt, x, y :: ops.step(m, gt, x, y).Some? ==> index(ops.step(m, gt, x, y).value.0) == index(m) + 1)
  }

  lemma GateCounts<V(!new), M(!new)>(ops: Backend<V, M>, index: M -> nat, s: State<V, M>, gt: GateType,
                                     a: Wire, b: Wire, c: Wire, live: bool)
    requires Counting(ops, index) && GateStep(ops, s, gt, a, b, c, live).Success?
    ensures index(GateStep(ops, s, gt, a, b, c, live).value.mode) == index(s.mode) + 1
  {
  }

  /** So a run adds the number of gates over the whole tree of calls. */
  lemma {:induction false} RunCounts<V(!new), M(!new)>(
    ops: Backend<V, M>, index: M -> nat, p: Prog, env: seq<Wire>, credits: seq<nat>, outer: Ledger, s: State<V, M>,
    o: Outcome<V, M>)
    requires Counting(ops, index) && |credits| == Arity(p)
    requires Eval(ops, p, env, credits, outer, s) == Success(o)
    ensures index(o.state.mode) == index(s.mode) + GateCount(p)
    decreases p
  {
    hide Counting, GateStep;
    match p
    case Done(_) =>
    case Issue(next) =>
      var (cells, w) := NewWire(s.cells, Uses(next, |env|, credits));
      RunCounts(ops, index, next, env + [w], credits, outer, s.(cells := cells), o);
    case Gate(gt, a, b, c, next) =>
      var z := Resolve(env, Slot(c));
      var live := z.Slot? && Rest(next, env, credits, outer)(z.index) > 0;
      var s' := GateStep(ops, s, gt, Resolve(env, a), Resolve(env, b), z, live).value;
      GateCounts(ops, index, s, gt, Resolve(env, a), Resolve(env, b), z, live);
      RunCounts(ops, index, next, env, credits, outer, s', o);
    case Call(key, ins, child, next) =>
      var xs, childCredits := ResolveAll(env, ins), UsesFrom(next, |env|, Arity(child), credits);
      var rest := Rest(next, env, credits, outer);
      var r := Eval(ops, child, xs, childCredits, rest, s).value;
      RunCounts(ops, index, child, xs, childCredits, rest, s, r);
      RunCounts(ops, index, next, env + r.outs, credits, outer, r.state, o);
  }
}
