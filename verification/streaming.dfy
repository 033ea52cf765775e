/**
 * The streaming run: a slab with slot reuse, a stack of credit frames, and a template cache.
 * It computes what the direct evaluator computes.
 */
module Streaming {
  import opened Wrappers
  import opened Gates
  import opened Storage
  import opened Programs
  import opened ComponentMeta
  import opened Direct
  import opened Layout
  import TemplatePool

  // ----- one gate on the slab

  function Found<V, M>(ops: Backend<V, M>, mode: M, data: Slab<Option<V>>, w: Wire): Result<V, Fault> {
    match w
    case FalseWire => Success(ops.falseValue(mode))
    case TrueWire => Success(ops.trueValue(mode))
    case Unreachable => Failure(MissingWire)
    case Slot(i) =>
      if i !in data then Failure(MissingWire)
      else if data[i].data.None? then Failure(Uninitialised)
      else Success(data[i].data.value)
  }

  function After<T>(data: Slab<T>, w: Wire): Slab<T> {
    if w.Slot? && w.index in data then Taken(data, w.index) else data
  }

  function WriteSlot<V, M>(ops: Backend<V, M>, mode: M, data: Slab<Option<V>>, gt: GateType, x: V, y: V,
                           c: Wire): Result<(Slab<Option<V>>, M), Fault> {
    match c
    case Unreachable => Success((data, ops.skip(mode)))
    case Slot(i) =>
      (match ops.step(mode, gt, x, y)
       case None => Failure(BackendFault)
       case Some((mode, v)) =>
         if i in data then Success((data[i := Entry(data[i].credits, Some(v))], mode)) else Failure(DeadWrite))
    case _ => Failure(ConstantWrite)
  }

  /** The effect of a gate on slab and mode: two reads, then a write. */
  function GateOn<V, M>(ops: Backend<V, M>, mode: M, data: Slab<Option<V>>, gt: GateType, a: Wire, b: Wire,
                        c: Wire): Result<(Slab<Option<V>>, M), Fault> {
    var x :- Found(ops, mode, data, a);
    var y :- Found(ops, mode, After(data, a), b);
    WriteSlot(ops, mode, After(After(data, a), b), gt, x, y, c)
  }

  /** Reading a wire of the running frame finds the value the direct evaluator has for it. */
  lemma ReadRefines<V, M>(ops: Backend<V, M>, s: State<V, M>, data: Slab<Option<V>>, lay: Layout, led: Ledger, x: Wire,
                          w: Wire)
    requires Holds(data, s.cells, lay, Plus(x, led)) && Stands(x, w, lay.loc, |s.cells|)
    ensures Found(ops, s.mode, data, w) == Read(ops, s, x)
    ensures Holds(After(data, w), s.cells, AfterRead(lay, x, led), led)
    ensures Evolves(lay.loc, AfterRead(lay, x, led).loc, |s.cells|)
  {
    if x.Slot? {
      HoldsRead(data, s.cells, lay, Plus(x, led), led, x, w);
    } else {
      HoldsSame(data, s.cells, lay, Plus(x, led), led);
    }
  }

  /** The slab after the two reads of a gate, and the layout that goes with it. */
  lemma GateReads<V, M>(ops: Backend<V, M>, s: State<V, M>, data: Slab<Option<V>>, lay: Layout,
                        x: Wire, y: Wire, a: Wire, b: Wire, rest: Ledger)
    returns (lay': Layout)
    requires Holds(data, s.cells, lay, Plus(x, Plus(y, rest)))
    requires Stands(x, a, lay.loc, |s.cells|) && Stands(y, b, lay.loc, |s.cells|)
    ensures Found(ops, s.mode, data, a) == Read(ops, s, x)
    ensures Found(ops, s.mode, After(data, a), b) == Read(ops, s, y)
    ensures Holds(After(After(data, a), b), s.cells, lay', rest)
    ensures Evolves(lay.loc, lay'.loc, |s.cells|)
    ensures forall i :: i in lay.loc && i !in lay'.loc ==> lay.loc[i] !in After(After(data, a), b)
  {
    ReadRefines(ops, s, data, lay, Plus(y, rest), x, a);
    var lay1, data1 := AfterRead(lay, x, Plus(y, rest)), After(data, a);
    ReadRefines(ops, s, data1, lay1, rest, y, b);
    lay' := AfterRead(lay1, y, rest);
  }

  lemma WriteRefines<V, M>(ops: Backend<V, M>, s: State<V, M>, data: Slab<Option<V>>, lay: Layout, loc: map<nat, nat>,
                           gt: GateType, x: V, y: V, z: Wire, c: Wire, rest: Ledger)
    requires Holds(data, s.cells, lay, rest) && Stands(z, c, loc, |s.cells|) && Evolves(loc, lay.loc, |s.cells|)
    requires WriteCell(ops, s, gt, x, y, z, z.Slot? && rest(z.index) > 0).Success?
    ensures WriteSlot(ops, s.mode, data, gt, x, y, c).Success?
    ensures WriteSlot(ops, s.mode, data, gt, x, y, c).value.1
         == WriteCell(ops, s, gt, x, y, z, z.Slot? && rest(z.index) > 0).value.mode
    ensures Holds(WriteSlot(ops, s.mode, data, gt, x, y, c).value.0,
                  WriteCell(ops, s, gt, x, y, z, z.Slot? && rest(z.index) > 0).value.cells, lay, rest)
  {
    if z.Slot? {
      HoldsSet(data, s.cells, lay, rest, z, c, Some(ops.step(s.mode, gt, x, y).value.1));
    }
  }

  /** A gate that succeeds on the cells succeeds on the slab, with the same mode and in step. */
  lemma GateRefines<V, M>(ops: Backend<V, M>, s: State<V, M>, s': State<V, M>, data: Slab<Option<V>>, lay: Layout,
                          gt: GateType, x: Wire, y: Wire, z: Wire, a: Wire, b: Wire, c: Wire, rest: Ledger)
    returns (lay': Layout, r: (Slab<Option<V>>, M))
    requires Holds(data, s.cells, lay, Plus(x, Plus(y, rest)))
    requires Stands(x, a, lay.loc, |s.cells|) && Stands(y, b, lay.loc, |s.cells|) && Stands(z, c, lay.loc, |s.cells|)
    requires GateStep(ops, s, gt, x, y, z, z.Slot? && rest(z.index) > 0) == Success(s')
    ensures GateOn(ops, s.mode, data, gt, a, b, c) == Success(r) && r.1 == s'.mode
    ensures Holds(r.0, s'.cells, lay', rest)
    ensures Evolves(lay.loc, lay'.loc, |s.cells|)
  {
    lay' := GateReads(ops, s, data, lay, x, y, a, b, rest);
    var v, w := Read(ops, s, x).value, Read(ops, s, y).value;
    WriteRefines(ops, s, After(After(data, a), b), lay', lay.loc, gt, v, w, z, c, rest);
    r := WriteSlot(ops, s.mode, After(After(data, a), b), gt, v, w, c).value;
  }

  /**
   * If its output cell is live before the gate, a gate fails on the slab exactly when it does on
   * the cells.
   */
  lemma GateFails<V, M>(ops: Backend<V, M>, s: State<V, M>, data: Slab<Option<V>>, lay: Layout, gt: GateType,
                        x: Wire, y: Wire, z: Wire, a: Wire, b: Wire, c: Wire, rest: Ledger)
    requires Holds(data, s.cells, lay, Plus(x, Plus(y, rest)))
    requires Stands(x, a, lay.loc, |s.cells|) && Stands(y, b, lay.loc, |s.cells|) && Stands(z, c, lay.loc, |s.cells|)
    requires z.Slot? ==> Plus(x, Plus(y, rest))(z.index) > 0
    ensures GateOn(ops, s.mode, data, gt, a, b, c).Failure?
       <==> GateStep(ops, s, gt, x, y, z, z.Slot? && rest(z.index) > 0).Failure?
  {
    var step := GateStep(ops, s, gt, x, y, z, z.Slot? && rest(z.index) > 0);
    if step.Success? {
      hide Holds, Stands, GateOn, GateStep;
      var lay', r := GateRefines(ops, s, step.value, data, lay, gt, x, y, z, a, b, c, rest);
    } else {
      GateFailsOn(ops, s, data, lay, gt, x, y, z, a, b, c, rest);
    }
  }

  lemma GateFailsOn<V, M>(ops: Backend<V, M>, s: State<V, M>, data: Slab<Option<V>>, lay: Layout, gt: GateType,
                          x: Wire, y: Wire, z: Wire, a: Wire, b: Wire, c: Wire, rest: Ledger)
    requires Holds(data, s.cells, lay, Plus(x, Plus(y, rest)))
    requires Stands(x, a, lay.loc, |s.cells|) && Stands(y, b, lay.loc, |s.cells|) && Stands(z, c, lay.loc, |s.cells|)
    requires z.Slot? ==> Plus(x, Plus(y, rest))(z.index) > 0
    requires GateStep(ops, s, gt, x, y, z, z.Slot? && rest(z.index) > 0).Failure?
    ensures GateOn(ops, s.mode, data, gt, a, b, c).Failure?
  {
    var lay' := GateReads(ops, s, data, lay, x, y, a, b, rest);
    if Read(ops, s, x).Success? && Read(ops, s, y).Success? {
      assert z.Slot? && rest(z.index) == 0 ==> z.index in lay.loc && z.index !in lay'.loc;
      WriteFails(ops, s, After(After(data, a), b), gt, Read(ops, s, x).value, Read(ops, s, y).value, z, c,
                 z.Slot? && rest(z.index) > 0);
    }
  }

  lemma WriteFails<V, M>(ops: Backend<V, M>, s: State<V, M>, data: Slab<Option<V>>, gt: GateType, x: V, y: V, z: Wire,
                         c: Wire, live: bool)
    requires WriteCell(ops, s, gt, x, y, z, live).Failure?
    requires if z.Slot? then z.index < |s.cells| && c.Slot? && (!live ==> c.index !in data) else c == z
    ensures WriteSlot(ops, s.mode, data, gt, x, y, c).Failure?
  {
  }

  // ----- writes to a wire that is not read again

  /** A gate with a slot as output that reads two values and does not fail in the backend. */
  ghost predicate Computes<V, M>(ops: Backend<V, M>, s: State<V, M>, gt: GateType, x: Wire, y: Wire, r: (M, V)) {
    && Read(ops, s, x).Success? && Read(ops, s, y).Success?
    && ops.step(s.mode, gt, Read(ops, s, x).value, Read(ops, s, y).value) == Some(r)
  }

  /**
   * Where a gate's value goes. The slab only asks whether the output's slot is occupied after the
   * two reads, so the gate succeeds exactly if the cell that owns the slot is still used, and it is
   * that cell that takes the value.
   */
  lemma WriteLands<V, M>(ops: Backend<V, M>, s: State<V, M>, data: Slab<Option<V>>, lay: Layout, gt: GateType,
                         x: Wire, y: Wire, z: Wire, a: Wire, b: Wire, c: Wire, rest: Ledger, r: (M, V))
    returns (lay': Layout)
    requires Holds(data, s.cells, lay, Plus(x, Plus(y, rest))) && Computes(ops, s, gt, x, y, r)
    requires Stands(x, a, lay.loc, |s.cells|) && Stands(y, b, lay.loc, |s.cells|) && Stands(z, c, lay.loc, |s.cells|)
    requires z.Slot?
    ensures var g := GateOn(ops, s.mode, data, gt, a, b, c);
            if c.index in data && rest(lay.own[c.index]) > 0
            then g.Success? && g.value.1 == r.0 && lay.own[c.index] < |s.cells|
                 && Holds(g.value.0, s.cells[lay.own[c.index] := Some(r.1)], lay', rest)
            else g == Failure(DeadWrite)
    ensures rest(z.index) > 0 <==> c.index in data && rest(lay.own[c.index]) > 0 && lay.own[c.index] == z.index
  {
    lay' := GateReads(ops, s, data, lay, x, y, a, b, rest);
    ReadsShrink(data, a, b);
    GateOnSlot(ops, s, data, gt, x, y, a, b, c, r);
    hide Holds, Evolves, After, Found, Read, GateOn, Computes;
    var data' := After(After(data, a), b);
    OwnerAfter(data, data', s.cells, lay, lay', Plus(x, Plus(y, rest)), rest, z, c);
    hide Stands;
    if c.index in data' {
      HoldsSet(data', s.cells, lay', rest, Slot(lay.own[c.index]), c, Some(r.1));
    }
  }

  lemma GateOnSlot<V, M>(ops: Backend<V, M>, s: State<V, M>, data: Slab<Option<V>>, gt: GateType,
                         x: Wire, y: Wire, a: Wire, b: Wire, c: Wire, r: (M, V))
    requires Computes(ops, s, gt, x, y, r) && c.Slot?
    requires Found(ops, s.mode, data, a) == Read(ops, s, x) && Found(ops, s.mode, After(data, a), b) == Read(ops, s, y)
    ensures var data' := After(After(data, a), b);
            GateOn(ops, s.mode, data, gt, a, b, c)
            == if c.index in data' then Success((data'[c.index := Entry(data'[c.index].credits, Some(r.1))], r.0))
               else Failure(DeadWrite)
  {
    hide After, Found, Read;
  }

  lemma ReadsShrink<T>(data: Slab<T>, a: Wire, b: Wire)
    ensures forall i :: i in After(After(data, a), b) ==> i in data
  {
    assert forall i :: i in After(data, a) ==> i in data;
  }

  /** A slot is occupied after some reads exactly if the cell that owned it before is still used. */
  lemma OwnerAfter<V>(data: Slab<Option<V>>, data': Slab<Option<V>>, cells: seq<Option<V>>, lay: Layout, lay': Layout,
                      led: Ledger, rest: Ledger, z: Wire, c: Wire)
    requires Holds(data, cells, lay, led) && Holds(data', cells, lay', rest) && Evolves(lay.loc, lay'.loc, |cells|)
    requires forall i :: i in data' ==> i in data
    requires Stands(z, c, lay.loc, |cells|) && z.Slot?
    ensures c.index in data ==> c.index in lay.own
    ensures c.index in data' <==> c.index in data && rest(lay.own[c.index]) > 0
    ensures c.index in data' ==> Stands(Slot(lay.own[c.index]), c, lay'.loc, |cells|) && lay.own[c.index] < |cells|
    ensures rest(z.index) > 0 <==> c.index in data' && lay.own[c.index] == z.index
  {
    if c.index in data && rest(lay.own[c.index]) > 0 {
      assert lay.own[c.index] in lay'.loc;
    }
    if c.index in data' {
      assert lay'.own[c.index] in lay'.loc;
    }
    if rest(z.index) > 0 {
      assert z.index in lay'.loc;
    }
  }

  /**
   * A gate that overwrites the wire it reads twice, as in-place negation does, finds its slot freed
   * by its own reads exactly if the wire is not read again.
   */
  lemma InPlaceIff<V, M>(ops: Backend<V, M>, s: State<V, M>, data: Slab<Option<V>>, lay: Layout, gt: GateType,
                         x: Wire, a: Wire, rest: Ledger, r: (M, V))
    requires Holds(data, s.cells, lay, Plus(x, Plus(x, rest))) && Computes(ops, s, gt, x, x, r)
    requires Stands(x, a, lay.loc, |s.cells|) && x.Slot?
    ensures GateOn(ops, s.mode, data, gt, a, a, a) == Failure(DeadWrite) <==> rest(x.index) == 0
    ensures GateOn(ops, s.mode, data, gt, a, a, a).Success? <==> rest(x.index) > 0
  {
    var lay' := WriteLands(ops, s, data, lay, gt, x, x, x, a, a, a, rest, r);
    assert x.index in lay.loc && lay.own[a.index] == x.index;
  }

  // ----- the streaming context

  type Library = map<Key, (Prog, nat)>

  /** Every cached template is the one of the body that its key determines. */
  ghost predicate TemplatesAgree(items: seq<TemplatePool.Item<Template>>, lib: Library) {
    forall item :: item in items ==>
      item.key in lib && item.value == TemplateOf(lib[item.key].0, lib[item.key].1)
  }

  lemma EnsuredAgree(items: seq<TemplatePool.Item<Template>>, capacity: nat, key: Key, value: Template, lib: Library)
    requires TemplatesAgree(items, lib)
    requires key in lib && value == TemplateOf(lib[key].0, lib[key].1)
    ensures TemplatesAgree(TemplatePool.Ensured(items, capacity, key, value), lib)
    ensures TemplatesAgree(TemplatePool.Inserted(items, capacity, key, value), lib)
    ensures TemplatesAgree(TemplatePool.Touched(items, key), lib)
  {
  }

  /** The input wires of a child can take their top-ups: each is held, and its counter does not overflow. */
  ghost predicate TopUpsFit(xs: seq<Wire>, tus: seq<TopUp>, led: Ledger) {
    && (forall k :: 0 <= k < |tus| ==> tus[k].position < |xs|)
    && (forall j :: 0 <= j < |xs| ==> !xs[j].Unreachable?)
    && (forall j :: 0 <= j < |xs| && xs[j].Slot? ==>
          led(xs[j].index) > 0 && TopUpWeight(xs, tus, xs[j].index) + led(xs[j].index) <= MAX_CREDITS)
  }

  lemma ReadableReads<V, M>(ops: Backend<V, M>, s: State<V, M>, xs: seq<Wire>)
    requires Readable(s.cells, xs)
    ensures forall j :: 0 <= j < |xs| ==> Read(ops, s, xs[j]).Success?
  {
  }

  /** What a top-up adds to the ledger. */
  lemma TopUpLedger(xs: seq<Wire>, tus: seq<TopUp>, k: nat, led: Ledger)
    requires k < |tus| && TopUpsFit(xs, tus, led)
    ensures tus[k].position < |xs|
    ensures var x, now, next := xs[tus[k].position], PlusTopUps(xs, tus[..k], led), PlusTopUps(xs, tus[..k + 1], led);
            && !x.Unreachable?
            && (forall a: nat :: next(a) == now(a) + if x == Slot(a) then tus[k].credits else 0)
            && (x.Slot? ==> now(x.index) > 0 && now(x.index) + tus[k].credits <= MAX_CREDITS)
  {
    var x := xs[tus[k].position];
    assert tus[..k + 1][..k] == tus[..k];
    if x.Slot? {
      TopUpPrefix(xs, tus, k + 1, x.index);
    }
  }

  // ----- credit frames

  /** The running frame holds exactly the credits of the names its body has still to issue. */
  ghost predicate InFrame(stack: seq<seq<nat>>, p: Prog, k: nat, credits: seq<nat>)
    requires |credits| == Arity(p)
  {
    && |stack| > 0
    && stack[|stack| - 1] == Reversed(UsesFrom(p, k, Issued(p), credits))
    && forall i :: k <= i < k + Issued(p) ==> Uses(p, i, credits) <= MAX_CREDITS
  }

  ghost predicate SameBelow(stack: seq<seq<nat>>, stack': seq<seq<nat>>) {
    |stack| == |stack'| > 0 && stack[..|stack| - 1] == stack'[..|stack| - 1]
  }

  lemma FrameIssue(stack: seq<seq<nat>>, next: Prog, k: nat, credits: seq<nat>)
    requires |credits| == Arity(next) && InFrame(stack, Issue(next), k, credits)
    ensures var n, top := |stack| - 1, stack[|stack| - 1];
            && |top| > 0 && top[|top| - 1] == Uses(next, k, credits) <= MAX_CREDITS
            && InFrame(stack[n := top[..|top| - 1]], next, k + 1, credits)
  {
    UsesFromIssue(next, k, credits);
    var now, later := [Uses(next, k, credits)], UsesFrom(next, k + 1, Issued(next), credits);
    ReversedSplit(now, later);
    hide Uses, UsesFrom, Reversed, Arity;
    assert now[0] == Reversed(now + later)[|now| + |later| - 1];
  }

  lemma UsesFromIssue(next: Prog, k: nat, credits: seq<nat>)
    requires |credits| == Arity(next)
    ensures Arity(Issue(next)) == Arity(next)
    ensures UsesFrom(Issue(next), k, 1 + Issued(next), credits)
         == [Uses(next, k, credits)] + UsesFrom(next, k + 1, Issued(next), credits)
    ensures forall i: nat :: Uses(Issue(next), i, credits) == Uses(next, i, credits)
  {
    assert forall i: nat :: Uses(Issue(next), i, credits) == Uses(next, i, credits);
    hide Uses;
  }

  lemma FrameDone(stack: seq<seq<nat>>, p: Prog, k: nat, credits: seq<nat>)
    requires p.Done? && |credits| == Arity(p) && InFrame(stack, p, k, credits)
    ensures |stack| > 0 && stack[|stack| - 1] == []
  {
  }

  lemma FrameGate(stack: seq<seq<nat>>, p: Prog, k: nat, credits: seq<nat>)
    requires p.Gate? && |credits| == Arity(p) && InFrame(stack, p, k, credits) && WellFormed(p, k)
    ensures InFrame(stack, p.next, k, credits)
  {
    assert forall i :: k <= i ==> Uses(p, i, credits) == Uses(p.next, i, credits);
    assert UsesFrom(p, k, Issued(p), credits) == UsesFrom(p.next, k, Issued(p.next), credits);
  }

  lemma UsesFromCall(p: Prog, k: nat, credits: seq<nat>)
    requires p.Call? && |credits| == Arity(p) && WellFormed(p, k)
    ensures UsesFrom(p, k, Issued(p), credits)
         == UsesFrom(p.next, k, Arity(p.child), credits) + UsesFrom(p.next, k + Arity(p.child), Issued(p.next), credits)
    ensures forall i :: k <= i ==> Uses(p, i, credits) == Uses(p.next, i, credits)
  {
    forall i | k <= i ensures Uses(p, i, credits) == Uses(p.next, i, credits) { HitsInScope(p.ins, k, i); }
  }

  lemma ReversedSplit(s: seq<nat>, t: seq<nat>)
    ensures Reversed(s + t)[..|t|] == Reversed(t)
    ensures forall j :: 0 <= j < |s| ==> s[j] == Reversed(s + t)[|s| + |t| - 1 - j]
  {
  }

  lemma FrameCall(stack: seq<seq<nat>>, p: Prog, k: nat, credits: seq<nat>)
    requires p.Call? && |credits| == Arity(p) && InFrame(stack, p, k, credits) && WellFormed(p, k)
    ensures var n, m, top := |stack| - 1, Arity(p.child), stack[|stack| - 1];
            && m <= |top|
            && (forall j :: 0 <= j < m ==> UsesFrom(p.next, k, m, credits)[j] == top[|top| - 1 - j])
            && InFrame(stack[n := top[..|top| - m]], p.next, k + m, credits)
  {
    var m := Arity(p.child);
    UsesFromCall(p, k, credits);
    hide Uses, UsesFrom, Reversed, WellFormed;
    var now, later := UsesFrom(p.next, k, m, credits), UsesFrom(p.next, k + m, Issued(p.next), credits);
    assert |now| == m && |later| == Issued(p.next);
    ReversedSplit(now, later);
    hide Arity, Issued;
  }

  /** A wire was allocated with `credits`, or the sentinel was handed out. */
  ghost predicate Allocated<V>(data: Slab<Option<V>>, data': Slab<Option<V>>, w: Wire, credits: nat) {
    && credits <= MAX_CREDITS
    && if credits == 0 then w == Unreachable && data' == data
       else w.Slot? && w.index !in data && data' == data[w.index := Entry(credits, None)]
  }

  /** The direct evaluator's new name and the slab's new wire stay in step. */
  lemma IssueRefines<V>(data: Slab<Option<V>>, data': Slab<Option<V>>, cells: seq<Option<V>>, lay: Layout,
                        next: Prog, env: seq<Wire>, wires: seq<Wire>, credits: seq<nat>, outer: Ledger, w: Wire)
    returns (lay': Layout)
    requires |credits| == Arity(next) && Allocated(data, data', w, Uses(next, |env|, credits))
    requires Holds(data, cells, lay, Rest(Issue(next), env, credits, outer)) && AllStand(env, wires, lay.loc, |cells|)
    requires forall a :: |cells| <= a ==> outer(a) == 0
    ensures var (cells', x) := NewWire(cells, Uses(next, |env|, credits));
            && Holds(data', cells', lay', Rest(next, env + [x], credits, outer))
            && AllStand(env + [x], wires + [w], lay'.loc, |cells'|)
    ensures Evolves(lay.loc, lay'.loc, |cells|)
  {
    var n := |cells|;
    var (cells', x) := NewWire(cells, Uses(next, |env|, credits));
    var led, led' := Rest(Issue(next), env, credits, outer), Rest(next, env + [x], credits, outer);
    forall a: nat ensures led'(a) == led(a) + if x == Slot(a) then Uses(next, |env|, credits) else 0 {
      FutureBind(next, env, x, credits, a);
    }
    if x.Slot? {
      forall j | 0 <= j < |env| ensures env[j] != Slot(n) { assert Stands(env[j], wires[j], lay.loc, n); }
      FutureUnbound(next, env, credits, n);
      lay' := Layout(lay.loc[n := w.index], lay.own[w.index := n]);
      HoldsAllocate(data, cells, lay, led, led', w.index, Uses(next, |env|, credits));
    } else {
      lay' := lay;
      HoldsSame(data, cells, lay, led, led');
    }
    StandsEvolves(env, wires, lay.loc, lay'.loc, n, |cells'|);
  }

  lemma CallTopUpsFit<V>(child: Prog, xs: seq<Wire>, outCredits: seq<nat>, tus: seq<TopUp>, cells: seq<Option<V>>,
                         rest: Ledger)
    requires |outCredits| == Arity(child)
    requires Readable(cells, xs) && CallFits(child, xs, outCredits, PlusAll(xs, rest))
    requires forall tu :: tu in tus ==> tu.position < |xs|
    requires forall i :: 0 <= i < |xs| ==> TopUpSum(tus, i) == Uses(child, i, outCredits)
    ensures TopUpsFit(xs, tus, PlusAll(xs, rest))
    ensures forall a: nat ::
              PlusTopUps(xs, tus, PlusAll(xs, rest))(a) == PlusAll(xs, Rest(child, xs, outCredits, rest))(a)
  {
    forall a: nat ensures TopUpWeight(xs, tus, a) == Future(child, xs, outCredits, a) {
      TopUpsAreFuture(child, xs, outCredits, tus, a);
    }
    forall j | 0 <= j < |xs| && xs[j].Slot? ensures PlusAll(xs, rest)(xs[j].index) > 0 {
      HitsPositive(xs, j, xs[j].index);
    }
    forall k | 0 <= k < |tus| ensures tus[k].position < |xs| {
      assert tus[k] in tus;
    }
  }

  /** Nothing outside the cells is used. */
  lemma RestZero(p: Prog, env: seq<Wire>, wires: seq<Wire>, lay: Layout, credits: seq<nat>, outer: Ledger, n: nat)
    requires |credits| == Arity(p) && AllStand(env, wires, lay.loc, n)
    requires forall a :: n <= a ==> outer(a) == 0
    ensures forall a :: n <= a ==> Rest(p, env, credits, outer)(a) == 0
  {
    forall a | n <= a ensures Rest(p, env, credits, outer)(a) == 0 {
      forall j | 0 <= j < |env| ensures env[j] != Slot(a) { assert Stands(env[j], wires[j], lay.loc, n); }
      FutureUnbound(p, env, credits, a);
    }
  }

  /** The outputs of a child become names of the caller, with the credits they were given. */
  lemma ReturnRefines<V>(data: Slab<Option<V>>, cells: seq<Option<V>>, lay: Layout, lay': Layout, next: Prog,
                         env: seq<Wire>, wires: seq<Wire>, xs: seq<Wire>, outs: seq<Wire>, credits: seq<nat>,
                         outer: Ledger, n: nat)
    requires |credits| == Arity(next) && n <= |cells|
    requires AllStand(env, wires, lay.loc, n) && Evolves(lay.loc, lay'.loc, n) && AllStand(xs, outs, lay'.loc, |cells|)
    requires Holds(data, cells, lay',
                   Pending(xs, UsesFrom(next, |env|, |xs|, credits), Rest(next, env, credits, outer)))
    ensures Holds(data, cells, lay', Rest(next, env + xs, credits, outer))
    ensures AllStand(env + xs, wires + outs, lay'.loc, |cells|)
  {
    StandsEvolves(env, wires, lay.loc, lay'.loc, n, |cells|);
    var before := Pending(xs, UsesFrom(next, |env|, |xs|, credits), Rest(next, env, credits, outer));
    forall a: nat ensures Rest(next, env + xs, credits, outer)(a) == before(a) {
      FutureBindAll(next, env, xs, credits, a);
    }
    HoldsSame(data, cells, lay', before, Rest(next, env + xs, credits, outer));
  }

  /** The gate that body `p` starts with, as the direct evaluator runs it. */
  ghost function GateIn<V, M>(ops: Backend<V, M>, p: Prog, env: seq<Wire>, rest: Ledger,
                              s: State<V, M>): Result<State<V, M>, Fault>
    requires p.Gate?
  {
    var z := Resolve(env, Slot(p.c));
    GateStep(ops, s, p.gt, Resolve(env, p.a), Resolve(env, p.b), z, z.Slot? && rest(z.index) > 0)
  }

  lemma GateInFrame<V, M>(ops: Backend<V, M>, p: Prog, env: seq<Wire>, wires: seq<Wire>, rest: Ledger, led: Ledger,
                          s: State<V, M>, s': State<V, M>, data: Slab<Option<V>>, lay: Layout)
    returns (lay': Layout, r: (Slab<Option<V>>, M))
    requires p.Gate? && WellFormed(p, |env|) && GateIn(ops, p, env, rest, s) == Success(s')
    requires forall a: nat :: led(a) == Hit(Resolve(env, p.a), a) + Hit(Resolve(env, p.b), a) + rest(a)
    requires Holds(data, s.cells, lay, led) && AllStand(env, wires, lay.loc, |s.cells|)
    ensures GateOn(ops, s.mode, data, p.gt, Resolve(wires, p.a), Resolve(wires, p.b), Resolve(wires, Slot(p.c)))
         == Success(r)
    ensures r.1 == s'.mode && Holds(r.0, s'.cells, lay', rest)
    ensures AllStand(env, wires, lay'.loc, |s.cells|) && Evolves(lay.loc, lay'.loc, |s.cells|)
  {
    var x, y, z := Resolve(env, p.a), Resolve(env, p.b), Resolve(env, Slot(p.c));
    StandsResolve(env, wires, lay.loc, |s.cells|, p.a);
    StandsResolve(env, wires, lay.loc, |s.cells|, p.b);
    StandsResolve(env, wires, lay.loc, |s.cells|, Slot(p.c));
    HoldsSame(data, s.cells, lay, led, Plus(x, Plus(y, rest)));
    lay', r := GateRefines(ops, s, s', data, lay, p.gt, x, y, z,
                           Resolve(wires, p.a), Resolve(wires, p.b), Resolve(wires, Slot(p.c)), rest);
    StandsEvolves(env, wires, lay.loc, lay'.loc, |s.cells|, |s.cells|);
  }

  /** The call that body `p` starts with runs to `r` in the direct evaluator. */
  ghost predicate CallRuns<V, M>(ops: Backend<V, M>, p: Prog, env: seq<Wire>, credits: seq<nat>, outer: Ledger,
                                 s: State<V, M>, r: Outcome<V, M>)
    requires p.Call? && |credits| == Arity(p)
  {
    var xs, outCredits := ResolveAll(env, p.ins), UsesFrom(p.next, |env|, Arity(p.child), credits);
    && Readable(s.cells, xs)
    && CallFits(p.child, xs, outCredits, Rest(p, env, credits, outer))
    && Eval(ops, p.child, xs, outCredits, Rest(p.next, env, credits, outer), s) == Success(r)
  }

  lemma EvalDone<V, M>(ops: Backend<V, M>, p: Prog, env: seq<Wire>, credits: seq<nat>, outer: Ledger, s: State<V, M>)
    requires p.Done? && |credits| == Arity(p)
    ensures Eval(ops, p, env, credits, outer, s) == Success(Outcome(s, ResolveAll(env, p.outs)))
  {
  }

  lemma EvalIssue<V, M>(ops: Backend<V, M>, p: Prog, env: seq<Wire>, credits: seq<nat>, outer: Ledger, s: State<V, M>)
    requires p.Issue? && |credits| == Arity(p)
    ensures var (cells, x) := NewWire(s.cells, Uses(p.next, |env|, credits));
            Eval(ops, p, env, credits, outer, s) == Eval(ops, p.next, env + [x], credits, outer, s.(cells := cells))
  {
  }

  lemma EvalGate<V, M>(ops: Backend<V, M>, p: Prog, env: seq<Wire>, credits: seq<nat>, outer: Ledger, s: State<V, M>)
    returns (s': State<V, M>)
    requires p.Gate? && |credits| == Arity(p) && Eval(ops, p, env, credits, outer, s).Success?
    ensures GateIn(ops, p, env, Rest(p.next, env, credits, outer), s) == Success(s') && |s'.cells| == |s.cells|
    ensures Eval(ops, p, env, credits, outer, s) == Eval(ops, p.next, env, credits, outer, s')
  {
    s' := GateIn(ops, p, env, Rest(p.next, env, credits, outer), s).value;
  }

  lemma EvalCall<V, M>(ops: Backend<V, M>, p: Prog, env: seq<Wire>, credits: seq<nat>, outer: Ledger, s: State<V, M>)
    returns (r: Outcome<V, M>)
    requires p.Call? && |credits| == Arity(p) && Eval(ops, p, env, credits, outer, s).Success?
    ensures CallRuns(ops, p, env, credits, outer, s, r)
    ensures Eval(ops, p, env, credits, outer, s) == Eval(ops, p.next, env + r.outs, credits, outer, r.state)
  {
    r := Eval(ops, p.child, ResolveAll(env, p.ins), UsesFrom(p.next, |env|, Arity(p.child), credits),
              Rest(p.next, env, credits, outer), s).value;
  }

  lemma ChildFits(child: Prog, ins: seq<Wire>, credits: seq<nat>, before: Ledger)
    requires |credits| == Arity(child) && CallFits(child, ins, credits, before)
    ensures forall i :: 0 <= i < |ins| + Issued(child) ==> Reads(child, i) <= MAX_CREDITS
    ensures forall i :: 0 <= i < |ins| + Issued(child) ==> Uses(child, i, credits) <= MAX_CREDITS
  {
    forall i | 0 <= i < |ins| + Issued(child) ensures Reads(child, i) <= MAX_CREDITS {
      UsesSplit(child, i, credits);
    }
  }

  lemma CallFitsSame(child: Prog, ins: seq<Wire>, credits: seq<nat>, before: Ledger, before': Ledger)
    requires |credits| == Arity(child) && CallFits(child, ins, credits, before)
    requires forall a: nat :: before(a) == before'(a)
    ensures CallFits(child, ins, credits, before')
  {
  }

  lemma CallLedger(p: Prog, env: seq<Wire>, credits: seq<nat>, outer: Ledger)
    requires p.Call? && |credits| == Arity(p)
    ensures forall a: nat ::
              Rest(p, env, credits, outer)(a) == PlusAll(ResolveAll(env, p.ins), Rest(p.next, env, credits, outer))(a)
  {
    forall a: nat
      ensures Rest(p, env, credits, outer)(a) == PlusAll(ResolveAll(env, p.ins), Rest(p.next, env, credits, outer))(a)
    {
      assert Future(p, env, credits, a) == Hits(ResolveAll(env, p.ins), a) + Future(p.next, env, credits, a);
    }
  }

  /** At the end of a body, what is left are the caller's reads of its outputs. */
  lemma DoneRefines<V>(p: Prog, env: seq<Wire>, credits: seq<nat>, outer: Ledger, data: Slab<Option<V>>,
                       cells: seq<Option<V>>, lay: Layout)
    requires p.Done? && |credits| == Arity(p) && Holds(data, cells, lay, Rest(p, env, credits, outer))
    ensures Holds(data, cells, lay, Pending(ResolveAll(env, p.outs), credits, outer))
    ensures Evolves(lay.loc, lay.loc, |cells|)
  {
    HoldsSame(data, cells, lay, Rest(p, env, credits, outer), Pending(ResolveAll(env, p.outs), credits, outer));
  }

  lemma GateLedger(p: Prog, env: seq<Wire>, credits: seq<nat>, outer: Ledger)
    requires p.Gate? && |credits| == Arity(p)
    ensures forall a: nat ::
              Rest(p, env, credits, outer)(a)
              == Hit(Resolve(env, p.a), a) + Hit(Resolve(env, p.b), a) + Rest(p.next, env, credits, outer)(a)
  {
    forall a: nat
      ensures Rest(p, env, credits, outer)(a)
           == Hit(Resolve(env, p.a), a) + Hit(Resolve(env, p.b), a) + Rest(p.next, env, credits, outer)(a)
    {
      assert Future(p, env, credits, a)
          == Hit(Resolve(env, p.a), a) + Hit(Resolve(env, p.b), a) + Future(p.next, env, credits, a);
    }
  }

  class Context<V, M> {
    const ops: Backend<V, M>
    const storage: Store<Option<V>>
    const templates: TemplatePool.Pool<Template>
    var mode: M
    /** The credit stack of every active frame, innermost frame last, next credit last. */
    var stack: seq<seq<nat>>

    ghost predicate Valid(lib: Library)
      reads templates
    {
      templates.Valid() && TemplatesAgree(templates.Items(), lib)
    }

    constructor (ops: Backend<V, M>, mode: M, capacity: nat, ghost lib: Library)
      requires capacity > 0
      ensures Valid(lib) && this.ops == ops && this.mode == mode && stack == [] && storage.data == map[]
      ensures fresh(storage) && fresh(templates)
    {
      this.ops, this.mode, this.stack := ops, mode, [];
      storage := new Store();
      templates := new TemplatePool.Pool(capacity);
    }

    /** The value of a wire, spending one credit. */
    method LookupWire(w: Wire) returns (r: Result<V, Fault>)
      modifies storage
      ensures r == Found(ops, mode, old(storage.data), w)
      ensures storage.data == After(old(storage.data), w)
    {
      if w.FalseWire? {
        return Success(ops.falseValue(mode));
      }
      if w.TrueWire? {
        return Success(ops.trueValue(mode));
      }
      var d := storage.Get(w);
      if d.Failure? {
        return Failure(MissingWire);
      }
      r := if d.value.None? then Failure(Uninitialised) else Success(d.value.value);
    }

    method EvaluateGate(gt: GateType, a: Wire, b: Wire, c: Wire) returns (r: Result<(), Fault>)
      modifies this`mode, storage
      ensures var g := GateOn(ops, old(mode), old(storage.data), gt, a, b, c);
              if g.Success? then r.Success? && (storage.data, mode) == g.value else r == Failure(g.error)
    {
      hide After, Found;
      var x :- LookupWire(a);
      var y :- LookupWire(b);
      if c == Unreachable {
        mode := ops.skip(mode);
        return Success(());
      }
      if !c.Slot? {
        return Failure(ConstantWrite);
      }
      var stepped := ops.step(mode, gt, x, y);
      if stepped.None? {
        return Failure(BackendFault);
      }
      var written := storage.Set(c, Some(stepped.value.1));
      if written.Failure? {
        return Failure(DeadWrite);
      }
      mode := stepped.value.0;
      r := Success(());
    }

    /** Takes the next `n` credits of the running frame. */
    method PopCredits(n: nat) returns (credits: seq<nat>)
      requires |stack| > 0 && n <= |stack[|stack| - 1]|
      modifies this`stack
      ensures |credits| == n
      ensures var top := old(stack)[|old(stack)| - 1];
              && stack == old(stack)[|old(stack)| - 1 := top[..|top| - n]]
              && forall j :: 0 <= j < n ==> credits[j] == top[|top| - 1 - j]
    {
      ghost var top := stack[|stack| - 1];
      credits := [];
      assert top[..|top|] == top;
      for k := 0 to n
        invariant |stack| == |old(stack)| && |credits| == k
        invariant stack == old(stack)[|old(stack)| - 1 := top[..|top| - k]]
        invariant forall j :: 0 <= j < k ==> credits[j] == top[|top| - 1 - j]
      {
        var frame := stack[|stack| - 1];
        assert frame[..|frame| - 1] == top[..|top| - (k + 1)];
        credits := credits + [frame[|frame| - 1]];
        stack := stack[|stack| - 1 := frame[..|frame| - 1]];
      }
    }

    /** The template of a child: from the cache, or from a metadata pass over its body. */
    method FetchTemplate(key: Key, child: Prog, inputCount: nat, ghost lib: Library) returns (t: Template)
      requires Valid(lib) && key in lib && lib[key] == (child, inputCount) && WellFormed(child, inputCount)
      requires forall i :: 0 <= i < inputCount + Issued(child) ==> Reads(child, i) <= MAX_CREDITS
      modifies templates
      ensures Valid(lib) && t == TemplateOf(child, inputCount)
    {
      EnsuredAgree(templates.Items(), templates.capacity, key, TemplateOf(child, inputCount), lib);
      var cached := templates.Get(key);
      if cached.Some? {
        return cached.value;
      }
      EnsuredAgree(templates.Items(), templates.capacity, key, TemplateOf(child, inputCount), lib);
      var built := BuildTemplate(child, inputCount);
      t := templates.GetOrInsertWith(key, () => built);
    }

    /** The credit frame of a call, and the top-ups of its input wires. */
    method Instantiate(key: Key, child: Prog, inputCount: nat, outCredits: seq<nat>, ghost lib: Library)
      returns (frame: seq<nat>, tus: seq<TopUp>)
      requires Valid(lib) && key in lib && lib[key] == (child, inputCount) && WellFormed(child, inputCount)
      requires forall i :: 0 <= i < inputCount + Issued(child) ==> Reads(child, i) <= MAX_CREDITS
      requires |outCredits| == Arity(child)
      modifies templates
      ensures Valid(lib) && frame == Reversed(UsesFrom(child, inputCount, Issued(child), outCredits))
      ensures forall tu :: tu in tus ==> tu.position < inputCount
      ensures forall i :: 0 <= i < inputCount ==> TopUpSum(tus, i) == Uses(child, i, outCredits)
    {
      var t := FetchTemplate(key, child, inputCount, lib);
      InstanceMeaning(child, inputCount, outCredits);
      frame, tus := ToInstance(t, outCredits);
    }

    method PushFrame(frame: seq<nat>)
      modifies this`stack
      ensures |stack| == |old(stack)| + 1 && stack[|stack| - 1] == frame && stack[..|stack| - 1] == old(stack)
    {
      stack := stack + [frame];
    }

    /** Raises the credits of a child's input wires. */
    method TopUpInputs(tus: seq<TopUp>, wires: seq<Wire>, ghost xs: seq<Wire>, ghost cells: seq<Option<V>>,
                       ghost lay: Layout, ghost led: Ledger)
      requires Holds(storage.data, cells, lay, led) && AllStand(xs, wires, lay.loc, |cells|)
      requires TopUpsFit(xs, tus, led)
      modifies storage
      ensures Holds(storage.data, cells, lay, PlusTopUps(xs, tus, led))
    {
      HoldsSame(storage.data, cells, lay, led, PlusTopUps(xs, [], led));
      for k := 0 to |tus|
        invariant Holds(storage.data, cells, lay, PlusTopUps(xs, tus[..k], led))
      {
        TopUpLedger(xs, tus, k, led);
        var tu := tus[k];
        ghost var x := xs[tu.position];
        TopUpInput(wires[tu.position], tu.credits, x, cells, lay, PlusTopUps(xs, tus[..k], led),
                   PlusTopUps(xs, tus[..k + 1], led));
      }
      assert tus[..|tus|] == tus;
    }

    /** One top-up: constants are skipped. */
    method TopUpInput(w: Wire, credits: nat, ghost x: Wire, ghost cells: seq<Option<V>>, ghost lay: Layout,
                      ghost led: Ledger, ghost led': Ledger)
      requires Holds(storage.data, cells, lay, led) && Stands(x, w, lay.loc, |cells|) && !x.Unreachable?
      requires x.Slot? ==> led(x.index) > 0 && led(x.index) + credits <= MAX_CREDITS
      requires forall a: nat :: led'(a) == led(a) + if x == Slot(a) then credits else 0
      modifies storage
      ensures Holds(storage.data, cells, lay, led')
    {
      if w != TrueWire && w != FalseWire {
        HoldsAdd(storage.data, cells, lay, led, led', x, w, credits);
        var r := storage.AddCredits(w, credits);
        assert r.Success?;
      } else {
        HoldsSame(storage.data, cells, lay, led, led');
      }
    }

    /** Reads one wire of a list, spending one credit. */
    method LookupNext(w: Wire, ghost x: Wire, ghost s: State<V, M>, ghost lay: Layout, ghost rest: Ledger)
      returns (value: V, ghost lay': Layout)
      requires Holds(storage.data, s.cells, lay, Plus(x, rest)) && Stands(x, w, lay.loc, |s.cells|)
      requires mode == s.mode && Read(ops, s, x).Success?
      modifies storage
      ensures Read(ops, s, x) == Success(value)
      ensures Holds(storage.data, s.cells, lay', rest) && Evolves(lay.loc, lay'.loc, |s.cells|)
    {
      ReadRefines(ops, s, storage.data, lay, rest, x, w);
      lay' := AfterRead(lay, x, rest);
      hide Holds, After, Found, Read, AfterRead;
      var r := LookupWire(w);
      value := r.value;
    }

    /**
     * Reads every wire of a list once, spending one credit of each position. This unpins the
     * inputs of a child once they are topped up, and it decodes inputs and outputs of a run.
     */
    method LookupAll(wires: seq<Wire>, ghost xs: seq<Wire>, ghost s: State<V, M>, ghost lay: Layout, ghost led: Ledger)
      returns (values: seq<V>, ghost lay': Layout)
      requires Holds(storage.data, s.cells, lay, PlusAll(xs, led)) && AllStand(xs, wires, lay.loc, |s.cells|)
      requires mode == s.mode && Readable(s.cells, xs)
      modifies storage
      ensures |values| == |xs| && forall j :: 0 <= j < |xs| ==> Read(ops, s, xs[j]) == Success(values[j])
      ensures Holds(storage.data, s.cells, lay', led)
      ensures Evolves(lay.loc, lay'.loc, |s.cells|)
    {
      lay' := lay;
      values := [];
      assert xs[0..] == xs;
      ReadableReads(ops, s, xs);
      hide Holds, Readable, Stands, Read;
      for k := 0 to |wires|
        invariant |values| == k && forall j :: 0 <= j < k ==> Read(ops, s, xs[j]) == Success(values[j])
        invariant Holds(storage.data, s.cells, lay', PlusAll(xs[k..], led))
        invariant AllStand(xs, wires, lay'.loc, |s.cells|) && Evolves(lay.loc, lay'.loc, |s.cells|)
      {
        ghost var x, rest := xs[k], PlusAll(xs[k + 1..], led);
        assert xs[k..][1..] == xs[k + 1..];
        forall a: nat ensures PlusAll(xs[k..], led)(a) == Plus(x, rest)(a) { HitsHead(xs[k..], a); }
        HoldsSame(storage.data, s.cells, lay', PlusAll(xs[k..], led), Plus(x, rest));
        var value;
        ghost var after;
        value, after := LookupNext(wires[k], x, s, lay', rest);
        StandsEvolves(xs, wires, lay'.loc, after.loc, |s.cells|, |s.cells|);
        EvolvesTrans(lay.loc, lay'.loc, after.loc, |s.cells|, |s.cells|);
        values, lay' := values + [value], after;
      }
      assert xs[|xs|..] == [];
      HoldsSame(storage.data, s.cells, lay', PlusAll([], led), led);
    }

    /** Pops the credits of a new wire and allocates it. */
    method IssueWire() returns (w: Wire)
      requires |stack| > 0 && |stack[|stack| - 1]| > 0
      requires stack[|stack| - 1][|stack[|stack| - 1]| - 1] <= MAX_CREDITS
      modifies this`stack, storage
      ensures var top := old(stack)[|old(stack)| - 1];
              && stack == old(stack)[|old(stack)| - 1 := top[..|top| - 1]]
              && Allocated(old(storage.data), storage.data, w, top[|top| - 1])
    {
      var credits := PopCredits(1);
      w := storage.Allocate(None, credits[0]);
    }

    /** Issues the next name of the running frame. */
    method StepIssue(next: Prog, ghost env: seq<Wire>, ghost wires: seq<Wire>, ghost credits: seq<nat>,
                     ghost outer: Ledger, ghost s: State<V, M>, ghost lay: Layout)
      returns (w: Wire, ghost lay': Layout)
      requires |credits| == Arity(next) && InFrame(stack, Issue(next), |env|, credits)
      requires Holds(storage.data, s.cells, lay, Rest(Issue(next), env, credits, outer))
      requires AllStand(env, wires, lay.loc, |s.cells|)
      requires forall a :: |s.cells| <= a ==> outer(a) == 0
      modifies this`stack, storage
      ensures InFrame(stack, next, |env| + 1, credits) && SameBelow(stack, old(stack))
      ensures var (cells, x) := NewWire(s.cells, Uses(next, |env|, credits));
              && Holds(storage.data, cells, lay', Rest(next, env + [x], credits, outer))
              && AllStand(env + [x], wires + [w], lay'.loc, |cells|)
      ensures Evolves(lay.loc, lay'.loc, |s.cells|)
    {
      FrameIssue(stack, next, |env|, credits);
      ghost var data := storage.data;
      w := IssueWire();
      lay' := IssueRefines(data, storage.data, s.cells, lay, next, env, wires, credits, outer, w);
    }

    /** Tops up and unpins the inputs of a child. */
    method PassInputs(tus: seq<TopUp>, ghost child: Prog, wires: seq<Wire>, ghost xs: seq<Wire>,
                      ghost outCredits: seq<nat>, ghost s: State<V, M>, ghost lay: Layout, ghost rest: Ledger)
      returns (ghost lay': Layout)
      requires |outCredits| == Arity(child) && mode == s.mode
      requires forall tu :: tu in tus ==> tu.position < |xs|
      requires forall i :: 0 <= i < |xs| ==> TopUpSum(tus, i) == Uses(child, i, outCredits)
      requires Holds(storage.data, s.cells, lay, PlusAll(xs, rest)) && AllStand(xs, wires, lay.loc, |s.cells|)
      requires Readable(s.cells, xs) && CallFits(child, xs, outCredits, PlusAll(xs, rest))
      modifies storage
      ensures Holds(storage.data, s.cells, lay', Rest(child, xs, outCredits, rest))
      ensures Evolves(lay.loc, lay'.loc, |s.cells|)
    {
      hide Holds, AllStand, Evolves, TopUpsFit, CallFits, Readable;
      CallTopUpsFit(child, xs, outCredits, tus, s.cells, rest);
      TopUpInputs(tus, wires, xs, s.cells, lay, PlusAll(xs, rest));
      HoldsSame(storage.data, s.cells, lay, PlusTopUps(xs, tus, PlusAll(xs, rest)),
                PlusAll(xs, Rest(child, xs, outCredits, rest)));
      var unpinned;
      unpinned, lay' := LookupAll(wires, xs, s, lay, Rest(child, xs, outCredits, rest));
    }

    /** Tops up and unpins the inputs of a call, and pushes its frame. */
    method EnterCall(key: Key, child: Prog, wires: seq<Wire>, outCredits: seq<nat>, ghost xs: seq<Wire>,
                     ghost s: State<V, M>, ghost lay: Layout, ghost rest: Ledger, ghost lib: Library)
      returns (ghost lay': Layout)
      requires Valid(lib) && key in lib && lib[key] == (child, |wires|) && WellFormed(child, |wires|)
      requires |outCredits| == Arity(child) && mode == s.mode
      requires Holds(storage.data, s.cells, lay, PlusAll(xs, rest)) && AllStand(xs, wires, lay.loc, |s.cells|)
      requires Readable(s.cells, xs) && CallFits(child, xs, outCredits, PlusAll(xs, rest))
      modifies this`stack, storage, templates
      ensures Valid(lib) && |stack| > 0 && stack[..|stack| - 1] == old(stack)
      ensures InFrame(stack, child, |wires|, outCredits)
      ensures Holds(storage.data, s.cells, lay', Rest(child, xs, outCredits, rest))
      ensures Evolves(lay.loc, lay'.loc, |s.cells|)
    {
      assert |xs| == |wires|;
      hide Valid, Holds, AllStand, Evolves, CallFits, Readable;
      ChildFits(child, xs, outCredits, PlusAll(xs, rest));
      var frame, tus := Instantiate(key, child, |wires|, outCredits, lib);
      lay' := PassInputs(tus, child, wires, xs, outCredits, s, lay, rest);
      PushFrame(frame);
    }

    /** One gate of the running frame; no lookup or write of the source panics. */
    method StepGate(p: Prog, wires: seq<Wire>, ghost env: seq<Wire>, ghost rest: Ledger, ghost led: Ledger,
                    ghost s: State<V, M>, ghost s': State<V, M>, ghost lay: Layout)
      returns (ghost lay': Layout)
      requires p.Gate? && WellFormed(p, |env|) && mode == s.mode
      requires GateIn(ops, p, env, rest, s) == Success(s')
      requires forall a: nat :: led(a) == Hit(Resolve(env, p.a), a) + Hit(Resolve(env, p.b), a) + rest(a)
      requires Holds(storage.data, s.cells, lay, led) && AllStand(env, wires, lay.loc, |s.cells|)
      modifies this`mode, storage
      ensures mode == s'.mode && Holds(storage.data, s'.cells, lay', rest)
      ensures AllStand(env, wires, lay'.loc, |s.cells|) && Evolves(lay.loc, lay'.loc, |s.cells|)
    {
      var a, b, c := Resolve(wires, p.a), Resolve(wires, p.b), Resolve(wires, Slot(p.c));
      ghost var g;
      lay', g := GateInFrame(ops, p, env, wires, rest, led, s, s', storage.data, lay);
      var r := EvaluateGate(p.gt, a, b, c);
      assert r.Success?;
    }

    /** A whole call: output credits, child frame, child body, and its outputs as new names of the caller. */
    method RunChild(p: Prog, wires: seq<Wire>, ghost env: seq<Wire>, ghost credits: seq<nat>, ghost outer: Ledger,
                    ghost s: State<V, M>, ghost lay: Layout, ghost lib: Library, ghost r: Outcome<V, M>)
      returns (outs: seq<Wire>, ghost lay': Layout)
      requires p.Call? && Valid(lib) && KeysAgree(p, lib) && WellFormed(p, |env|) && |credits| == Arity(p)
      requires CallRuns(ops, p, env, credits, outer, s, r)
      requires InFrame(stack, p, |env|, credits) && mode == s.mode
      requires Holds(storage.data, s.cells, lay, Rest(p, env, credits, outer))
      requires AllStand(env, wires, lay.loc, |s.cells|)
      requires forall a :: |s.cells| <= a ==> outer(a) == 0
      modifies this`mode, this`stack, storage, templates
      ensures Valid(lib) && SameBelow(stack, old(stack)) && InFrame(stack, p.next, |env| + Arity(p.child), credits)
      ensures |r.outs| == Arity(p.child) && |s.cells| <= |r.state.cells| && mode == r.state.mode
      ensures Holds(storage.data, r.state.cells, lay', Rest(p.next, env + r.outs, credits, outer))
      ensures AllStand(env + r.outs, wires + outs, lay'.loc, |r.state.cells|)
      ensures Evolves(lay.loc, lay'.loc, |s.cells|)
      decreases p, 0
    {
      hide Valid, Holds, AllStand, Evolves, InFrame, Readable, CallFits, Eval, Future, Reversed, UsesFrom;
      ghost var xs, rest := ResolveAll(env, p.ins), Rest(p.next, env, credits, outer);
      CallLedger(p, env, credits, outer);
      RestZero(p.next, env, wires, lay, credits, outer, |s.cells|);
      var outCredits;
      ghost var lay1;
      outCredits, lay1 := StepCall(p, wires, env, credits, rest, Rest(p, env, credits, outer), s, lay, lib);
      outs, lay' := Run(p.child, ResolveAll(wires, p.ins), xs, outCredits, rest, s, lay1, lib, r);
      stack := stack[..|stack| - 1];
      EvalArity(ops, p.child, xs, outCredits, rest, s);
      EvolvesTrans(lay.loc, lay1.loc, lay'.loc, |s.cells|, |s.cells|);
      ReturnRefines(storage.data, r.state.cells, lay, lay', p.next, env, wires, r.outs, outs, credits, outer,
                    |s.cells|);
    }

    /** Pops the output credits of a call and enters the child. */
    method StepCall(p: Prog, wires: seq<Wire>, ghost env: seq<Wire>, ghost credits: seq<nat>, ghost rest: Ledger,
                    ghost led: Ledger, ghost s: State<V, M>, ghost lay: Layout, ghost lib: Library)
      returns (outCredits: seq<nat>, ghost lay': Layout)
      requires p.Call? && Valid(lib) && WellFormed(p, |env|) && |credits| == Arity(p)
      requires p.key in lib && lib[p.key] == (p.child, |p.ins|)
      requires Readable(s.cells, ResolveAll(env, p.ins))
      requires CallFits(p.child, ResolveAll(env, p.ins), UsesFrom(p.next, |env|, Arity(p.child), credits), led)
      requires InFrame(stack, p, |env|, credits) && mode == s.mode
      requires forall a: nat :: led(a) == PlusAll(ResolveAll(env, p.ins), rest)(a)
      requires Holds(storage.data, s.cells, lay, led) && AllStand(env, wires, lay.loc, |s.cells|)
      modifies this`stack, storage, templates
      ensures Valid(lib) && outCredits == UsesFrom(p.next, |env|, Arity(p.child), credits)
      ensures InFrame(stack, p.child, |p.ins|, outCredits)
      ensures |stack| == |old(stack)| + 1 && SameBelow(stack[..|stack| - 1], old(stack))
      ensures InFrame(stack[..|stack| - 1], p.next, |env| + Arity(p.child), credits)
      ensures Holds(storage.data, s.cells, lay', Rest(p.child, ResolveAll(env, p.ins), outCredits, rest))
      ensures AllStand(ResolveAll(env, p.ins), ResolveAll(wires, p.ins), lay'.loc, |s.cells|)
      ensures Evolves(lay.loc, lay'.loc, |s.cells|)
    {
      hide Valid, Holds, AllStand, Evolves, InFrame, Readable, CallFits, Future, UsesFrom;
      ghost var xs := ResolveAll(env, p.ins);
      outCredits := PopOutputs(p, |env|, credits);
      var passed := ResolveAll(wires, p.ins);
      StandsResolveAll(env, wires, lay.loc, |s.cells|, p.ins);
      HoldsSame(storage.data, s.cells, lay, led, PlusAll(xs, rest));
      CallFitsSame(p.child, xs, outCredits, led, PlusAll(xs, rest));
      ghost var below := stack;
      lay' := EnterCall(p.key, p.child, passed, outCredits, xs, s, lay, rest, lib);
      assert stack[..|stack| - 1] == below;
      StandsEvolves(xs, passed, lay.loc, lay'.loc, |s.cells|, |s.cells|);
    }

    method PopOutputs(p: Prog, ghost k: nat, ghost credits: seq<nat>) returns (outCredits: seq<nat>)
      requires p.Call? && |credits| == Arity(p) && WellFormed(p, k) && InFrame(stack, p, k, credits)
      modifies this`stack
      ensures outCredits == UsesFrom(p.next, k, Arity(p.child), credits)
      ensures SameBelow(stack, old(stack)) && InFrame(stack, p.next, k + Arity(p.child), credits)
    {
      FrameCall(stack, p, k, credits);
      outCredits := PopCredits(Arity(p.child));
    }

    /**
     * Runs a body in the frame on top of the stack. It returns wires that stand for the wires the
     * direct evaluator returns, reaches the same mode, leaves every slot with exactly the credits
     * of its remaining uses outside the frame, and leaves the frame's credit stack empty.
     */
    method Run(p: Prog, wires: seq<Wire>, ghost env: seq<Wire>, ghost credits: seq<nat>, ghost outer: Ledger,
               ghost s: State<V, M>, ghost lay: Layout, ghost lib: Library, ghost o: Outcome<V, M>)
      returns (outs: seq<Wire>, ghost lay': Layout)
      requires Valid(lib) && KeysAgree(p, lib) && WellFormed(p, |env|) && |credits| == Arity(p)
      requires Eval(ops, p, env, credits, outer, s) == Success(o)
      requires InFrame(stack, p, |env|, credits) && mode == s.mode
      requires Holds(storage.data, s.cells, lay, Rest(p, env, credits, outer))
      requires AllStand(env, wires, lay.loc, |s.cells|)
      requires forall a :: |s.cells| <= a ==> outer(a) == 0
      modifies this`mode, this`stack, storage, templates
      ensures Valid(lib) && SameBelow(stack, old(stack)) && stack[|stack| - 1] == []
      ensures |o.outs| == |credits| && mode == o.state.mode
      ensures Holds(storage.data, o.state.cells, lay', Pending(o.outs, credits, outer))
      ensures AllStand(o.outs, outs, lay'.loc, |o.state.cells|)
      ensures Evolves(lay.loc, lay'.loc, |s.cells|)
      decreases p, 1
    {
      hide Valid, Holds, AllStand, Evolves, InFrame, Future, Eval, Uses, GateStep;
      match p
      case Done(results) =>
        EvalDone(ops, p, env, credits, outer, s);
        FrameDone(stack, p, |env|, credits);
        outs, lay' := ResolveAll(wires, results), lay;
        StandsResolveAll(env, wires, lay.loc, |s.cells|, results);
        DoneRefines(p, env, credits, outer, storage.data, s.cells, lay);
      case Issue(next) =>
        ghost var (cells, x) := NewWire(s.cells, Uses(next, |env|, credits));
        EvalIssue(ops, p, env, credits, outer, s);
        var w;
        ghost var lay1;
        w, lay1 := StepIssue(next, env, wires, credits, outer, s, lay);
        outs, lay' := Run(next, wires + [w], env + [x], credits, outer, s.(cells := cells), lay1, lib, o);
        EvolvesTrans(lay.loc, lay1.loc, lay'.loc, |s.cells|, |cells|);
      case Gate(gt, a, b, c, next) =>
        FrameGate(stack, p, |env|, credits);
        GateLedger(p, env, credits, outer);
        ghost var rest := Rest(next, env, credits, outer);
        ghost var s' := EvalGate(ops, p, env, credits, outer, s);
        ghost var lay1 := StepGate(p, wires, env, rest, Rest(p, env, credits, outer), s, s', lay);
        outs, lay' := Run(next, wires, env, credits, outer, s', lay1, lib, o);
        EvolvesTrans(lay.loc, lay1.loc, lay'.loc, |s.cells|, |s'.cells|);
      case Call(key, ins, child, next) =>
        ghost var r := EvalCall(ops, p, env, credits, outer, s);
        var childOuts;
        ghost var lay1;
        childOuts, lay1 := RunChild(p, wires, env, credits, outer, s, lay, lib, r);
        outs, lay' := Run(next, wires + childOuts, env + r.outs, credits, outer, r.state, lay1, lib, o);
        EvolvesTrans(lay.loc, lay1.loc, lay'.loc, |s.cells|, |r.state.cells|);
    }
  }

  // ----- a whole run

  const ROOT_KEY: Key := 0

  lemma WeightNames(n: nat, weights: seq<nat>, a: nat)
    requires |weights| == n
    ensures Weight(Names(n), weights, a) == if a < n then weights[a] else 0
  {
    if n > 0 {
      assert Names(n)[..n - 1] == Names(n - 1);
      WeightNames(n - 1, weights[..n - 1], a);
    }
  }

  lemma WeightOnes(ws: seq<Wire>, a: nat)
    ensures Weight(ws, Ones(|ws|), a) == Hits(ws, a)
  {
    if |ws| > 0 {
      assert Ones(|ws|)[..|ws| - 1] == Ones(|ws| - 1);
      WeightOnes(ws[..|ws| - 1], a);
    }
  }

  /** The uses of the inputs that are issued so far, with the one read from outside. */
  ghost function InputLedger(p: Prog, n: nat): (r: Ledger)
    ensures forall a: nat :: r(a) == if a < n then 1 + Uses(p, a, Ones(Arity(p))) else 0
  {
    (a: nat) => if a < n then 1 + Uses(p, a, Ones(Arity(p))) else 0
  }

  lemma HitsNames(n: nat, a: nat)
    ensures Hits(Names(n), a) == if a < n then 1 else 0
  {
    WeightNames(n, Ones(n), a);
    WeightOnes(Names(n), a);
  }

  lemma RootLedger(p: Prog, n: nat)
    ensures forall a: nat :: InputLedger(p, n)(a) == PlusAll(Names(n), Rest(p, Names(n), Ones(Arity(p)), Nothing))(a)
  {
    forall a: nat
      ensures InputLedger(p, n)(a) == PlusAll(Names(n), Rest(p, Names(n), Ones(Arity(p)), Nothing))(a)
    {
      FutureOfInputs(p, Names(n), Ones(Arity(p)), a);
      WeightNames(n, UsesFrom(p, 0, n, Ones(Arity(p))), a);
      HitsNames(n, a);
    }
  }

  /** With no uses left the slab is empty. */
  lemma HoldsNothing<V>(data: Slab<Option<V>>, cells: seq<Option<V>>, lay: Layout)
    requires Holds(data, cells, lay, Nothing)
    ensures data == map[]
  {
    assert forall a: nat :: a !in lay.loc;
    assert data.Keys == {};
  }

  /**
   * A circuit that begins by overwriting an input in place, as negation does: it runs like the rest
   * on the new input if the rest reads that input, and otherwise it aborts.
   */
  lemma InPlaceRoot<V, M>(ops: Backend<V, M>, mode: M, gt: GateType, i: nat, next: Prog, inputs: seq<V>, r: (M, V))
    requires i < |inputs| && ops.step(mode, gt, inputs[i], inputs[i]) == Some(r)
    ensures EvalRoot(ops, mode, Gate(gt, Slot(i), Slot(i), i, next), inputs)
         == if Uses(next, i, Ones(Arity(next))) > 0 then EvalRoot(ops, r.0, next, inputs[i := r.1])
            else Failure(DeadWrite)
  {
    var n, ones := |inputs|, Ones(Arity(next));
    FutureOfInputs(next, Names(n), ones, i);
    WeightNames(n, UsesFrom(next, 0, n, ones), i);
    assert Inputs(inputs)[i := Some(r.1)] == Inputs(inputs[i := r.1]);
    hide Uses, Future;
  }

  /** Input credits as the source lays them out: reversed, because they are popped from the end. */
  method InputCredits(p: Prog, n: nat, tus: seq<TopUp>) returns (credits: seq<nat>)
    requires forall tu :: tu in tus ==> tu.position < n
    requires forall i :: 0 <= i < n ==> TopUpSum(tus, i) == Uses(p, i, Ones(Arity(p)))
    ensures |credits| == n
    ensures forall i :: 0 <= i < n ==> credits[n - 1 - i] == 1 + Uses(p, i, Ones(Arity(p)))
  {
    credits := Ones(n);
    for k := 0 to |tus|
      invariant |credits| == n
      invariant forall j :: 0 <= j < n ==> credits[j] == 1 + TopUpSum(tus[..k], n - 1 - j)
    {
      assert tus[k] in tus && tus[..k + 1][..k] == tus[..k];
      var rev := n - 1 - tus[k].position;
      credits := credits[rev := credits[rev] + tus[k].credits];
    }
    assert tus[..|tus|] == tus;
    forall i | 0 <= i < n ensures credits[n - 1 - i] == 1 + Uses(p, i, Ones(Arity(p))) {
      assert n - 1 - (n - 1 - i) == i;
    }
  }

  function Nones<V>(n: nat): (r: seq<Option<V>>)
    ensures |r| == n && forall i :: 0 <= i < n ==> r[i] == None
  {
    seq(n, i => None)
  }

  /** The input cells when the first `k` are fed. */
  function Fed<V>(inputs: seq<V>, k: nat): (r: seq<Option<V>>)
    ensures |r| == |inputs| && forall i :: 0 <= i < |inputs| ==> r[i] == if i < k then Some(inputs[i]) else None
  {
    seq(|inputs|, i requires 0 <= i < |inputs| => if i < k then Some(inputs[i]) else None)
  }

  /** One more input wire has a slot of its own. */
  lemma InputIssued<V>(data: Slab<Option<V>>, lay: Layout, p: Prog, i: nat, wires: seq<Wire>, w: Wire, credits: Credits)
    returns (lay': Layout)
    requires Holds(data, Nones(i), lay, InputLedger(p, i)) && AllStand(Names(i), wires, lay.loc, i)
    requires w.Slot? && w.index !in data && credits == 1 + Uses(p, i, Ones(Arity(p)))
    ensures Holds(data[w.index := Entry(credits, None)], Nones<V>(i + 1), lay', InputLedger(p, i + 1))
    ensures AllStand(Names(i + 1), wires + [w], lay'.loc, i + 1)
  {
    HoldsAllocate<V>(data, Nones(i), lay, InputLedger(p, i), InputLedger(p, i + 1), w.index, credits);
    assert Nones<V>(i) + [None] == Nones(i + 1);
    lay' := Layout(lay.loc[i := w.index], lay.own[w.index := i]);
    assert Names(i + 1) == Names(i) + [Slot(i)];
    StandsEvolves(Names(i), wires, lay.loc, lay'.loc, i, i + 1);
  }

  /** Allocates the next input wire of the root frame. */
  method IssueInput<V, M>(ctx: Context<V, M>, i: nat, wires: seq<Wire>, ghost lay: Layout, ghost p: Prog,
                          ghost top: seq<nat>)
    returns (w: Wire, ghost lay': Layout)
    requires ctx.stack == [top] && |top| > 0 && top[|top| - 1] == 1 + Uses(p, i, Ones(Arity(p))) <= MAX_CREDITS
    requires Holds(ctx.storage.data, Nones(i), lay, InputLedger(p, i)) && AllStand(Names(i), wires, lay.loc, i)
    modifies ctx`stack, ctx.storage
    ensures ctx.stack == [top[..|top| - 1]]
    ensures Holds(ctx.storage.data, Nones<V>(i + 1), lay', InputLedger(p, i + 1))
    ensures AllStand(Names(i + 1), wires + [w], lay'.loc, i + 1)
  {
    hide Holds, AllStand, Uses;
    ghost var data := ctx.storage.data;
    w := ctx.IssueWire();
    lay' := InputIssued<V>(data, lay, p, i, wires, w, top[|top| - 1]);
  }

  /** Allocates the input wires of the root frame. */
  method IssueInputs<V, M>(ctx: Context<V, M>, n: nat, ghost p: Prog, ghost base: seq<nat>, ghost credits: seq<nat>)
    returns (wires: seq<Wire>, ghost lay: Layout)
    requires ctx.storage.data == map[] && ctx.stack == [base + credits] && |credits| == n
    requires forall i :: 0 <= i < n ==> credits[n - 1 - i] == 1 + Uses(p, i, Ones(Arity(p))) <= MAX_CREDITS
    modifies ctx`stack, ctx.storage
    ensures ctx.stack == [base] && |wires| == n
    ensures Holds(ctx.storage.data, Nones(n), lay, InputLedger(p, n))
    ensures AllStand(Names(n), wires, lay.loc, n)
  {
    wires, lay := [], Layout(map[], map[]);
    assert base + credits[..n] == base + credits;
    NothingHeld<V>(p);
    hide Holds, AllStand, Uses, InputLedger;
    for i := 0 to n
      invariant ctx.stack == [base + credits[..n - i]] && |wires| == i
      invariant Holds(ctx.storage.data, Nones(i), lay, InputLedger(p, i))
      invariant AllStand(Names(i), wires, lay.loc, i)
    {
      ghost var top := base + credits[..n - i];
      TopCredit(base, credits, i);
      var w;
      w, lay := IssueInput(ctx, i, wires, lay, p, top);
      wires := wires + [w];
    }
    assert base + credits[..0] == base;
  }

  lemma NothingHeld<V>(p: Prog)
    ensures Holds<V>(map[], Nones(0), Layout(map[], map[]), InputLedger(p, 0)) && AllStand(Names(0), [], map[], 0)
  {
  }

  lemma TopCredit(base: seq<nat>, credits: seq<nat>, i: nat)
    requires i < |credits|
    ensures var n, top := |credits|, base + credits[..|credits| - i];
            top[|top| - 1] == credits[n - 1 - i] && top[..|top| - 1] == base + credits[..n - (i + 1)]
  {
  }

  /** Encodes the inputs. */
  method FeedInputs<V, M>(ctx: Context<V, M>, wires: seq<Wire>, inputs: seq<V>, ghost lay: Layout, ghost led: Ledger)
    requires |wires| == |inputs| && AllStand(Names(|inputs|), wires, lay.loc, |inputs|)
    requires forall a: nat :: a < |inputs| ==> led(a) > 0
    requires Holds(ctx.storage.data, Nones(|inputs|), lay, led)
    modifies ctx.storage
    ensures Holds(ctx.storage.data, Inputs(inputs), lay, led)
  {
    assert Fed(inputs, 0) == Nones(|inputs|);
    for k := 0 to |inputs|
      invariant Holds(ctx.storage.data, Fed(inputs, k), lay, led)
    {
      assert Stands(Names(|inputs|)[k], wires[k], lay.loc, |inputs|);
      HoldsSet(ctx.storage.data, Fed(inputs, k), lay, led, Slot(k), wires[k], Some(inputs[k]));
      assert Fed(inputs, k)[k := Some(inputs[k])] == Fed(inputs, k + 1);
      var r := ctx.storage.Set(wires[k], Some(inputs[k]));
      assert r.Success?;
    }
    assert Fed(inputs, |inputs|) == Inputs(inputs);
  }

  /** A circuit that the direct evaluator runs from its inputs, with every output written at the end. */
  ghost predicate Runs<V, M>(ops: Backend<V, M>, mode: M, p: Prog, inputs: seq<V>, o: Outcome<V, M>) {
    && WellFormed(p, |inputs|)
    && RootFits(p, |inputs|)
    && EvalRoot(ops, mode, p, inputs) == Success(o)
    && Readable(o.state.cells, o.outs)
  }

  /**
   * A whole streaming run, for every well-formed circuit whose calls are determined by their keys.
   * No panic of the source is reached; the inputs read back, the outputs and the final mode are
   * those of the direct evaluator; and the slab is empty at the end.
   */
  method RunStreaming<V, M>(ops: Backend<V, M>, mode: M, p: Prog, inputs: seq<V>, capacity: nat, ghost lib: Library,
                            ghost o: Outcome<V, M>)
    returns (inputValues: seq<V>, outs: seq<V>, mode': M, live: nat)
    requires capacity > 0 && Runs(ops, mode, p, inputs, o)
    requires KeysAgree(p, lib) && ROOT_KEY in lib && lib[ROOT_KEY] == (p, |inputs|)
    ensures inputValues == inputs && mode' == o.state.mode
    ensures |outs| == |o.outs| && forall j :: 0 <= j < |outs| ==> Read(ops, o.state, o.outs[j]) == Success(outs[j])
    ensures live == 0
  {
    hide Context.Valid, Holds, AllStand, Evolves, Readable, InFrame, Eval, Future, Uses, RootFits, WellFormed;
    var n := |inputs|;
    var ctx, wires;
    ghost var lay;
    inputValues, ctx, wires, lay := EnterRoot(ops, mode, p, inputs, capacity, lib);
    var outWires;
    outWires, lay := ctx.Run(p, wires, Names(n), Ones(Arity(p)), Nothing, State(Inputs(inputs), mode), lay, lib, o);
    PendingOnes(ctx.storage.data, o.state.cells, lay, o.outs);
    outs, lay := ctx.LookupAll(outWires, o.outs, o.state, lay, Nothing);
    HoldsNothing(ctx.storage.data, o.state.cells, lay);
    mode', live := ctx.mode, |ctx.storage.data|;
  }

  lemma PendingOnes<V>(data: Slab<Option<V>>, cells: seq<Option<V>>, lay: Layout, outs: seq<Wire>)
    requires Holds(data, cells, lay, Pending(outs, Ones(|outs|), Nothing))
    ensures Holds(data, cells, lay, PlusAll(outs, Nothing))
  {
    forall a: nat ensures Pending(outs, Ones(|outs|), Nothing)(a) == PlusAll(outs, Nothing)(a) { WeightOnes(outs, a); }
    HoldsSame(data, cells, lay, Pending(outs, Ones(|outs|), Nothing), PlusAll(outs, Nothing));
  }

  lemma InputsReadable<V, M>(ops: Backend<V, M>, mode: M, inputs: seq<V>)
    ensures Readable(Inputs(inputs), Names(|inputs|))
    ensures forall j :: 0 <= j < |inputs| ==>
              Read(ops, State(Inputs(inputs), mode), Names(|inputs|)[j]) == Success(inputs[j])
  {
  }

  /** The inputs are allocated, encoded and read back. */
  method EncodeAndRead<V, M>(ctx: Context<V, M>, ghost p: Prog, inputs: seq<V>, ghost base: seq<nat>,
                             ghost credits: seq<nat>)
    returns (inputValues: seq<V>, wires: seq<Wire>, ghost lay: Layout)
    requires ctx.storage.data == map[] && ctx.stack == [base + credits] && |credits| == |inputs|
    requires forall i :: 0 <= i < |inputs| ==>
               credits[|inputs| - 1 - i] == 1 + Uses(p, i, Ones(Arity(p))) <= MAX_CREDITS
    modifies ctx`stack, ctx.storage
    ensures inputValues == inputs && ctx.stack == [base]
    ensures Holds(ctx.storage.data, Inputs(inputs), lay, Rest(p, Names(|inputs|), Ones(Arity(p)), Nothing))
    ensures AllStand(Names(|inputs|), wires, lay.loc, |inputs|)
  {
    var n := |inputs|;
    hide Holds, AllStand, Evolves, Readable, Future, Uses, Rest;
    wires, lay := IssueInputs(ctx, n, p, base, credits);
    FeedInputs(ctx, wires, inputs, lay, InputLedger(p, n));
    ghost var rest := Rest(p, Names(n), Ones(Arity(p)), Nothing);
    RootLedger(p, n);
    HoldsSame(ctx.storage.data, Inputs(inputs), lay, InputLedger(p, n), PlusAll(Names(n), rest));
    InputsReadable(ctx.ops, ctx.mode, inputs);
    ghost var before := lay;
    inputValues, lay := ctx.LookupAll(wires, Names(n), State(Inputs(inputs), ctx.mode), lay, rest);
    StandsEvolves(Names(n), wires, before.loc, lay.loc, n, n);
  }

  /** Everything of a run up to the root body: metadata pass, inputs allocated, encoded and read back. */
  method EnterRoot<V, M>(ops: Backend<V, M>, mode: M, p: Prog, inputs: seq<V>, capacity: nat, ghost lib: Library)
    returns (inputValues: seq<V>, ctx: Context<V, M>, wires: seq<Wire>, ghost lay: Layout)
    requires capacity > 0 && WellFormed(p, |inputs|) && RootFits(p, |inputs|)
    requires ROOT_KEY in lib && lib[ROOT_KEY] == (p, |inputs|)
    ensures inputValues == inputs
    ensures fresh(ctx) && fresh(ctx.storage) && fresh(ctx.templates)
    ensures ctx.Valid(lib) && ctx.ops == ops && ctx.mode == mode
    ensures InFrame(ctx.stack, p, |inputs|, Ones(Arity(p)))
    ensures Holds(ctx.storage.data, Inputs(inputs), lay, Rest(p, Names(|inputs|), Ones(Arity(p)), Nothing))
    ensures AllStand(Names(|inputs|), wires, lay.loc, |inputs|)
  {
    var n := |inputs|;
    var base, credits;
    ctx, base, credits := StartRoot(ops, mode, p, n, capacity, lib);
    hide Context.Valid, Holds, AllStand, Uses, WellFormed, RootFits, Rest;
    inputValues, wires, lay := EncodeAndRead(ctx, p, inputs, base, credits);
  }

  /** The metadata pass over the root, its template in the cache, and the root credit frame. */
  method StartRoot<V, M>(ops: Backend<V, M>, mode: M, p: Prog, n: nat, capacity: nat, ghost lib: Library)
    returns (ctx: Context<V, M>, base: seq<nat>, credits: seq<nat>)
    requires capacity > 0 && WellFormed(p, n) && RootFits(p, n)
    requires ROOT_KEY in lib && lib[ROOT_KEY] == (p, n)
    ensures fresh(ctx) && fresh(ctx.storage) && fresh(ctx.templates)
    ensures ctx.Valid(lib) && ctx.ops == ops && ctx.mode == mode && ctx.storage.data == map[]
    ensures ctx.stack == [base + credits] && |credits| == n
    ensures base == Reversed(UsesFrom(p, n, Issued(p), Ones(Arity(p))))
    ensures forall i :: 0 <= i < n ==> credits[n - 1 - i] == 1 + Uses(p, i, Ones(Arity(p))) <= MAX_CREDITS
  {
    forall i | 0 <= i < n + Issued(p) ensures Reads(p, i) <= MAX_CREDITS {
      UsesSplit(p, i, Ones(Arity(p)));
    }
    var meta := BuildTemplate(p, n);
    InstanceMeaning(p, n, Ones(Arity(p)));
    var frame, tus := ToInstance(meta, Ones(Arity(p)));
    var inputCredits := InputCredits(p, n, tus);
    ctx := new Context(ops, mode, capacity, lib);
    EnsuredAgree(ctx.templates.Items(), capacity, ROOT_KEY, meta, lib);
    EnsuredAgree(ctx.templates.Items(), ctx.templates.capacity, ROOT_KEY, meta, lib);
    var _ := ctx.templates.Insert(ROOT_KEY, meta);
    ctx.stack := [frame + inputCredits];
    base, credits := frame, inputCredits;
  }
}
