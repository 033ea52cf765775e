/**
 * Execute mode, and the plain meaning of single-assignment circuits.
 *
 * `Plain` knows nothing of wires ids, credits, unreachable wires or storage: a name is bound to
 * its value when its gate runs. Every circuit it accepts runs in the streaming machine with the
 * same outputs.
 */
module Execute {
  import opened Wrappers
  import opened Gates
  import opened Storage
  import opened Programs
  import opened Direct
  import Layout
  import Loads
  import Streaming

  /** The boolean backend: its state is the gate counter, which unreachable outputs do not advance. */
  function ExecuteOps(): Backend<bool, nat> {
    Backend(
      (m: nat) => false,
      (m: nat) => true,
      (m: nat) => m,
      (m: nat, gt: GateType, a: bool, b: bool) => Some((m + 1, Truth(gt, a, b))))
  }

  // ----- the plain evaluator

  function ValueOf(env: seq<Option<bool>>, w: Wire): Option<bool> {
    match w
    case FalseWire => Some(false)
    case TrueWire => Some(true)
    case Unreachable => None
    case Slot(i) => if i < |env| then env[i] else None
  }

  function ValuesOf(env: seq<Option<bool>>, ws: seq<Wire>): (r: Option<seq<bool>>)
    ensures r.Some? ==> |r.value| == |ws| && forall j :: 0 <= j < |ws| ==> ValueOf(env, ws[j]) == Some(r.value[j])
    ensures r.None? ==> exists j :: 0 <= j < |ws| && ValueOf(env, ws[j]).None?
  {
    if |ws| == 0 then Some([])
    else
      var n := |ws| - 1;
      match (ValuesOf(env, ws[..n]), ValueOf(env, ws[n]))
      case (Some(vs), Some(v)) => Some(vs + [v])
      case _ => None
  }

  function Bound(vs: seq<bool>): (r: seq<Option<bool>>)
    ensures |r| == |vs| && forall i :: 0 <= i < |vs| ==> r[i] == Some(vs[i])
  {
    seq(|vs|, i requires 0 <= i < |vs| => Some(vs[i]))
  }

  /**
   * The meaning of a body: each gate gives a value to a name that has none yet, and a call binds
   * the values of the child's outputs. It is undefined if a name is read before it has a value
   * or is written twice.
   */
  function Plain(p: Prog, env: seq<Option<bool>>): Option<seq<bool>> {
    match p
    case Done(outs) => ValuesOf(env, outs)
    case Issue(next) => Plain(next, env + [None])
    case Gate(gt, a, b, c, next) =>
      (match (ValueOf(env, a), ValueOf(env, b))
       case (Some(x), Some(y)) =>
         if c < |env| && env[c].None? then Plain(next, env[c := Some(Truth(gt, x, y))]) else None
       case _ => None)
    case Call(_, ins, child, next) =>
      match ValuesOf(env, ins)
      case None => None
      case Some(args) =>
        match Plain(child, Bound(args))
        case None => None
        case Some(results) => Plain(next, env + Bound(results))
  }

  // ----- the direct evaluator agrees

  /** How wire `w` carries value `v`; a wire that is never used may be the sentinel. */
  ghost predicate Carries(cells: seq<Option<bool>>, w: Wire, v: bool, uses: nat) {
    match w
    case FalseWire => !v
    case TrueWire => v
    case Unreachable => uses == 0
    case Slot(a) => a < |cells| && cells[a] == Some(v)
  }

  ghost predicate AllCarry(cells: seq<Option<bool>>, ws: seq<Wire>, vs: seq<bool>, uses: seq<nat>) {
    |ws| == |vs| == |uses| && forall j :: 0 <= j < |ws| ==> Carries(cells, ws[j], vs[j], uses[j])
  }

  /** A name without a value yet has a cell of its own with a reader still to come, or no reader at all. */
  ghost predicate Fresh(cells: seq<Option<bool>>, env: seq<Wire>, i: nat, uses: nat, led: Ledger)
    requires i < |env|
  {
    match env[i]
    case Unreachable => uses == 0
    case Slot(a) =>
      && a < |cells| && cells[a] == None && led(a) > 0
      && forall j :: 0 <= j < |env| && j != i ==> env[j] != Slot(a)
    case _ => false
  }

  ghost predicate NameOk(cells: seq<Option<bool>>, vals: seq<Option<bool>>, env: seq<Wire>, i: nat, uses: nat,
                         led: Ledger)
    requires i < |env| == |vals|
  {
    match vals[i]
    case Some(v) => Carries(cells, env[i], v, uses)
    case None => Fresh(cells, env, i, uses, led)
  }

  ghost predicate Agree(cells: seq<Option<bool>>, vals: seq<Option<bool>>, env: seq<Wire>, p: Prog, credits: seq<nat>,
                        outer: Ledger)
    requires |credits| == Arity(p)
  {
    && |vals| == |env|
    && forall i :: 0 <= i < |env| ==> NameOk(cells, vals, env, i, Uses(p, i, credits), Rest(p, env, credits, outer))
  }

  /** Cells with a value keep it, and cells that no name of the frame stands for keep still. */
  ghost predicate Kept(cells: seq<Option<bool>>, cells': seq<Option<bool>>, env: seq<Wire>) {
    && |cells| <= |cells'|
    && forall a :: 0 <= a < |cells| && (cells[a].Some? || Slot(a) !in env) ==> cells'[a] == cells[a]
  }

  lemma WeightZeroAt(ws: seq<Wire>, weights: seq<nat>, j: nat, i: nat)
    requires |ws| == |weights| && j < |ws| && ws[j] == Slot(i) && Weight(ws, weights, i) == 0
    ensures weights[j] == 0
  {
    if j < |ws| - 1 {
      WeightZeroAt(ws[..|ws| - 1], weights[..|ws| - 1], j, i);
    }
  }

  lemma AgreeDone(cells: seq<Option<bool>>, vals: seq<Option<bool>>, env: seq<Wire>, p: Prog, credits: seq<nat>,
                  outer: Ledger)
    requires p.Done? && |credits| == Arity(p) && Agree(cells, vals, env, p, credits, outer)
    requires WellFormed(p, |env|) && ValuesOf(vals, p.outs).Some?
    ensures AllCarry(cells, ResolveAll(env, p.outs), ValuesOf(vals, p.outs).value, credits)
  {
    forall j | 0 <= j < |p.outs|
      ensures Carries(cells, Resolve(env, p.outs[j]), ValuesOf(vals, p.outs).value[j], credits[j])
    {
      var w := p.outs[j];
      if w.Slot? {
        assert NameOk(cells, vals, env, w.index, Uses(p, w.index, credits), Rest(p, env, credits, outer));
        if env[w.index].Unreachable? {
          WeightZeroAt(p.outs, credits, j, w.index);
        }
      }
    }
  }

  /** A name that was fine stays fine when one more cell, not yet named, is added. */
  lemma NameKept(cells: seq<Option<bool>>, cells': seq<Option<bool>>, vals: seq<Option<bool>>, env: seq<Wire>, x: Wire,
                 i: nat, uses: nat, led: Ledger, led': Ledger)
    requires i < |env| == |vals| && NameOk(cells, vals, env, i, uses, led)
    requires |cells| <= |cells'| && cells'[..|cells|] == cells
    requires x.Unreachable? || x == Slot(|cells|)
    requires forall a: nat :: a < |cells| ==> led'(a) == led(a)
    ensures NameOk(cells', vals + [None], env + [x], i, uses, led')
  {
    assert forall a :: 0 <= a < |cells| ==> cells'[a] == cells[a];
  }

  lemma AgreeIssue(cells: seq<Option<bool>>, vals: seq<Option<bool>>, env: seq<Wire>, p: Prog, credits: seq<nat>,
                   outer: Ledger)
    returns (cells': seq<Option<bool>>, x: Wire)
    requires p.Issue? && |credits| == Arity(p) && Agree(cells, vals, env, p, credits, outer)
    ensures (cells', x) == NewWire(cells, Uses(p.next, |env|, credits))
    ensures Agree(cells', vals + [None], env + [x], p.next, credits, outer)
    ensures |cells| <= |cells'| && cells'[..|cells|] == cells && (x.Slot? ==> x == Slot(|cells|))
  {
    var n := |env|;
    var r := NewWire(cells, Uses(p.next, n, credits));
    cells', x := r.0, r.1;
    var led, led' := Rest(p, env, credits, outer), Rest(p.next, env + [x], credits, outer);
    forall a: nat ensures led'(a) == led(a) + if x == Slot(a) then Uses(p.next, n, credits) else 0 {
      FutureBind(p.next, env, x, credits, a);
      assert Future(p, env, credits, a) == Future(p.next, env, credits, a);
    }
    forall i | 0 <= i < n
      ensures NameOk(cells', vals + [None], env + [x], i, Uses(p.next, i, credits), led') && env[i] != Slot(|cells|)
    {
      assert NameOk(cells, vals, env, i, Uses(p, i, credits), led);
      NameKept(cells, cells', vals, env, x, i, Uses(p, i, credits), led, led');
    }
    assert NameOk(cells', vals + [None], env + [x], n, Uses(p.next, n, credits), led');
  }

  /** What the names used by a gate are bound to. */
  lemma AgreeRead(s: State<bool, nat>, vals: seq<Option<bool>>, env: seq<Wire>, p: Prog, credits: seq<nat>,
                  outer: Ledger, w: Wire)
    requires |credits| == Arity(p) && Agree(s.cells, vals, env, p, credits, outer)
    requires InScope(w, |env|) && ValueOf(vals, w).Some?
    requires w.Slot? ==> Uses(p, w.index, credits) > 0
    ensures Read(ExecuteOps(), s, Resolve(env, w)) == Success(ValueOf(vals, w).value)
    ensures Resolve(env, w).Slot? ==> Resolve(env, w).index < |s.cells| && s.cells[Resolve(env, w).index].Some?
  {
    if w.Slot? {
      assert NameOk(s.cells, vals, env, w.index, Uses(p, w.index, credits), Rest(p, env, credits, outer));
    }
  }

  /** A gate that the plain evaluator runs finds its output cell fresh and live, or unreachable. */
  lemma AgreeGate(s: State<bool, nat>, vals: seq<Option<bool>>, env: seq<Wire>, p: Prog, credits: seq<nat>,
                  outer: Ledger, x: bool, y: bool)
    returns (s': State<bool, nat>)
    requires p.Gate? && WellFormed(p, |env|) && |credits| == Arity(p) && Agree(s.cells, vals, env, p, credits, outer)
    requires ValueOf(vals, p.a) == Some(x) && ValueOf(vals, p.b) == Some(y) && vals[p.c].None?
    ensures Streaming.GateIn(ExecuteOps(), p, env, Rest(p.next, env, credits, outer), s) == Success(s')
    ensures Agree(s'.cells, vals[p.c := Some(Truth(p.gt, x, y))], env, p.next, credits, outer)
    ensures Kept(s.cells, s'.cells, env)
  {
    var led, rest := Rest(p, env, credits, outer), Rest(p.next, env, credits, outer);
    s' := GateWrites(s, vals, env, p, credits, outer, x, y);
    Streaming.GateLedger(p, env, credits, outer);
    GateReadsValued(s.cells, vals, env, p, credits, outer);
    var vals' := vals[p.c := Some(Truth(p.gt, x, y))];
    forall i | 0 <= i < |env| ensures NameOk(s'.cells, vals', env, i, Uses(p.next, i, credits), rest) {
      hide NameOk, Uses, Rest, Truth;
      GateUses(p, i, credits);
      NameInFrame(s.cells, vals, env, p, credits, outer, i);
      NameInFrame(s.cells, vals, env, p, credits, outer, p.c);
      NameAfterGate(s.cells, s'.cells, vals, env, p.c, Truth(p.gt, x, y), i, Uses(p, i, credits), Uses(p, p.c, credits),
                    Uses(p.next, i, credits), led, rest);
    }
  }

  lemma GateUses(p: Prog, i: nat, credits: seq<nat>)
    requires p.Gate? && |credits| == Arity(p)
    ensures Uses(p.next, i, credits) <= Uses(p, i, credits)
  {
  }

  lemma NameInFrame(cells: seq<Option<bool>>, vals: seq<Option<bool>>, env: seq<Wire>, p: Prog, credits: seq<nat>,
                    outer: Ledger, i: nat)
    requires |credits| == Arity(p) && Agree(cells, vals, env, p, credits, outer) && i < |env|
    ensures |vals| == |env| && NameOk(cells, vals, env, i, Uses(p, i, credits), Rest(p, env, credits, outer))
  {
  }

  /** The ledger of a cell without a value is not touched by a gate's reads. */
  lemma GateReadsValued(cells: seq<Option<bool>>, vals: seq<Option<bool>>, env: seq<Wire>, p: Prog, credits: seq<nat>,
                        outer: Ledger)
    requires p.Gate? && WellFormed(p, |env|) && |credits| == Arity(p) && Agree(cells, vals, env, p, credits, outer)
    requires ValueOf(vals, p.a).Some? && ValueOf(vals, p.b).Some?
    ensures forall a: nat :: a < |cells| && cells[a].None? ==>
              Rest(p.next, env, credits, outer)(a) == Rest(p, env, credits, outer)(a)
  {
    Streaming.GateLedger(p, env, credits, outer);
    forall w | w == p.a || w == p.b
      ensures Resolve(env, w).Slot? ==> Resolve(env, w).index < |cells| && cells[Resolve(env, w).index].Some?
    {
      hide Rest;
      AgreeRead(State(cells, 0), vals, env, p, credits, outer, w);
    }
    hide Rest;
  }

  /** What the gate writes: its fresh output cell, or nothing. */
  lemma GateWrites(s: State<bool, nat>, vals: seq<Option<bool>>, env: seq<Wire>, p: Prog, credits: seq<nat>,
                   outer: Ledger, x: bool, y: bool)
    returns (s': State<bool, nat>)
    requires p.Gate? && WellFormed(p, |env|) && |credits| == Arity(p) && Agree(s.cells, vals, env, p, credits, outer)
    requires ValueOf(vals, p.a) == Some(x) && ValueOf(vals, p.b) == Some(y) && vals[p.c].None?
    ensures Streaming.GateIn(ExecuteOps(), p, env, Rest(p.next, env, credits, outer), s) == Success(s')
    ensures s'.cells == Fill(s.cells, env[p.c], Truth(p.gt, x, y))
    ensures Kept(s.cells, s'.cells, env)
  {
    var led, rest := Rest(p, env, credits, outer), Rest(p.next, env, credits, outer);
    AgreeRead(s, vals, env, p, credits, outer, p.a);
    AgreeRead(s, vals, env, p, credits, outer, p.b);
    GateReadsValued(s.cells, vals, env, p, credits, outer);
    NameInFrame(s.cells, vals, env, p, credits, outer, p.c);
    hide Agree, Rest, Uses;
    s' := Streaming.GateIn(ExecuteOps(), p, env, rest, s).value;
  }

  function Fill(cells: seq<Option<bool>>, w: Wire, v: bool): (r: seq<Option<bool>>)
    ensures |r| == |cells|
  {
    if w.Slot? && w.index < |cells| then cells[w.index := Some(v)] else cells
  }

  /** One name after a gate has given name `c` its value. */
  lemma NameAfterGate(cells: seq<Option<bool>>, cells': seq<Option<bool>>, vals: seq<Option<bool>>, env: seq<Wire>,
                      c: nat, v: bool, i: nat, uses: nat, usesC: nat, uses': nat, led: Ledger, rest: Ledger)
    requires i < |env| == |vals| && c < |env| && vals[c].None? && uses' <= uses
    requires NameOk(cells, vals, env, i, uses, led) && NameOk(cells, vals, env, c, usesC, led)
    requires cells' == Fill(cells, env[c], v)
    requires forall a: nat :: a < |cells| && cells[a].None? ==> rest(a) == led(a)
    requires i == c && env[c].Unreachable? ==> uses' == 0
    ensures NameOk(cells', vals[c := Some(v)], env, i, uses', rest)
  {
  }

  // ----- calls

  /** The inputs of a call all have values, and the child starts from them. */
  lemma AgreeEnter(s: State<bool, nat>, vals: seq<Option<bool>>, env: seq<Wire>, p: Prog, credits: seq<nat>,
                   outer: Ledger, args: seq<bool>, childCredits: seq<nat>, rest: Ledger)
    requires p.Call? && WellFormed(p, |env|) && |credits| == Arity(p) && Agree(s.cells, vals, env, p, credits, outer)
    requires ValuesOf(vals, p.ins) == Some(args) && |childCredits| == Arity(p.child)
    ensures Readable(s.cells, ResolveAll(env, p.ins))
    ensures Agree(s.cells, Bound(args), ResolveAll(env, p.ins), p.child, childCredits, rest)
  {
    var xs := ResolveAll(env, p.ins);
    forall j | 0 <= j < |xs|
      ensures Read(ExecuteOps(), s, xs[j]) == Success(args[j])
      ensures Carries(s.cells, xs[j], args[j], 0) && !xs[j].Unreachable?
    {
      var w := p.ins[j];
      if w.Slot? {
        Layout.HitsPositive(p.ins, j, w.index);
      }
      AgreeRead(s, vals, env, p, credits, outer, w);
    }
    forall i | 0 <= i < |xs|
      ensures NameOk(s.cells, Bound(args), xs, i, Uses(p.child, i, childCredits), Rest(p.child, xs, childCredits, rest))
    {
      assert Carries(s.cells, xs[i], args[i], 0);
    }
  }

  /** One name of the caller after the child returned. */
  lemma NameReturned(cells: seq<Option<bool>>, cells': seq<Option<bool>>, vals: seq<Option<bool>>, env: seq<Wire>,
                     xs: seq<Wire>, outs: seq<Wire>, results: seq<bool>, i: nat, uses: nat, led: Ledger, led': Ledger)
    requires i < |env| == |vals| && NameOk(cells, vals, env, i, uses, led) && |outs| == |results|
    requires Kept(cells, cells', xs)
    requires forall j :: 0 <= j < |xs| && xs[j].Slot? ==> xs[j].index < |cells| && cells[xs[j].index].Some?
    requires forall j :: 0 <= j < |outs| && outs[j].Slot? ==> outs[j].index < |cells'| && cells'[outs[j].index].Some?
    requires vals[i].None? && env[i].Slot? ==> led'(env[i].index) == led(env[i].index)
    ensures NameOk(cells', vals + Bound(results), env + outs, i, uses, led')
  {
    if vals[i].None? && env[i].Slot? {
      var a := env[i].index;
      assert cells'[a] == cells[a] == None;
      forall j | 0 <= j < |env + outs| && j != i ensures (env + outs)[j] != Slot(a) {
        if j >= |env| {
          assert (env + outs)[j] == outs[j - |env|];
        }
      }
    }
  }

  /** One name of the caller that a child's output is bound to. */
  lemma NameBound(cells: seq<Option<bool>>, vals: seq<Option<bool>>, env: seq<Wire>, outs: seq<Wire>,
                  results: seq<bool>, j: nat, uses: nat, led: Ledger)
    requires |vals| == |env| && j < |outs| == |results| && Carries(cells, outs[j], results[j], uses)
    ensures NameOk(cells, vals + Bound(results), env + outs, |env| + j, uses, led)
  {
  }

  lemma KeptThrough(cells: seq<Option<bool>>, cells': seq<Option<bool>>, env: seq<Wire>, ws: seq<Wire>)
    requires Kept(cells, cells', ResolveAll(env, ws)) && AllInScope(ws, |env|)
    ensures Kept(cells, cells', env)
  {
    forall a | 0 <= a < |cells| && Slot(a) !in env ensures cells'[a] == cells[a] {
      forall j | 0 <= j < |ws| ensures ResolveAll(env, ws)[j] != Slot(a) {
        if ws[j].Slot? {
          assert env[ws[j].index] in env;
        }
      }
    }
  }

  /** The ledger of a cell without a value is not touched by a call. */
  lemma ReturnLedger(p: Prog, env: seq<Wire>, credits: seq<nat>, outer: Ledger, outs: seq<Wire>, a: nat)
    requires p.Call? && |credits| == Arity(p) && |outs| == Arity(p.child)
    requires forall j :: 0 <= j < |p.ins| ==> Resolve(env, p.ins[j]) != Slot(a)
    requires forall j :: 0 <= j < |outs| ==> outs[j] != Slot(a)
    ensures Rest(p.next, env + outs, credits, outer)(a) == Rest(p, env, credits, outer)(a)
  {
    FutureBindAll(p.next, env, outs, credits, a);
    WeightUnbound(outs, UsesFrom(p.next, |env|, |outs|, credits), a);
    HitsUnbound(ResolveAll(env, p.ins), a);
    assert Future(p, env, credits, a) == Hits(ResolveAll(env, p.ins), a) + Future(p.next, env, credits, a);
  }

  /** The inputs of a call are cells with values. */
  lemma CallInputsValued(s: State<bool, nat>, vals: seq<Option<bool>>, env: seq<Wire>, p: Prog, credits: seq<nat>,
                         outer: Ledger, args: seq<bool>)
    requires p.Call? && WellFormed(p, |env|) && |credits| == Arity(p) && Agree(s.cells, vals, env, p, credits, outer)
    requires ValuesOf(vals, p.ins) == Some(args)
    ensures var xs := ResolveAll(env, p.ins);
            forall j :: 0 <= j < |xs| && xs[j].Slot? ==> xs[j].index < |s.cells| && s.cells[xs[j].index].Some?
  {
    var xs := ResolveAll(env, p.ins);
    forall j | 0 <= j < |xs| && xs[j].Slot? ensures xs[j].index < |s.cells| && s.cells[xs[j].index].Some? {
      if p.ins[j].Slot? {
        Layout.HitsPositive(p.ins, j, p.ins[j].index);
      }
      AgreeRead(s, vals, env, p, credits, outer, p.ins[j]);
    }
  }

  /** The caller resumes with the values of the child's outputs. */
  lemma AgreeReturn(s: State<bool, nat>, cells': seq<Option<bool>>, vals: seq<Option<bool>>, env: seq<Wire>, p: Prog,
                    credits: seq<nat>, outer: Ledger, args: seq<bool>, outs: seq<Wire>, results: seq<bool>)
    requires p.Call? && WellFormed(p, |env|) && |credits| == Arity(p) && Agree(s.cells, vals, env, p, credits, outer)
    requires ValuesOf(vals, p.ins) == Some(args) && |outs| == Arity(p.child)
    requires Kept(s.cells, cells', ResolveAll(env, p.ins))
    requires AllCarry(cells', outs, results, UsesFrom(p.next, |env|, |outs|, credits))
    ensures Agree(cells', vals + Bound(results), env + outs, p.next, credits, outer)
  {
    var xs, k := ResolveAll(env, p.ins), |env|;
    var led, led' := Rest(p, env, credits, outer), Rest(p.next, env + outs, credits, outer);
    CallInputsValued(s, vals, env, p, credits, outer, args);
    forall j | 0 <= j < |outs|
      ensures Carries(cells', outs[j], results[j], Uses(p.next, k + j, credits))
    {
      assert Carries(cells', outs[j], results[j], UsesFrom(p.next, k, |outs|, credits)[j]);
    }
    forall i | 0 <= i < k ensures NameOk(cells', vals + Bound(results), env + outs, i, Uses(p.next, i, credits), led') {
      NameInFrame(s.cells, vals, env, p, credits, outer, i);
      hide Agree, Carries, AllCarry, Kept;
      if vals[i].None? && env[i].Slot? {
        ReturnLedger(p, env, credits, outer, outs, env[i].index);
      }
      NameReturned(s.cells, cells', vals, env, xs, outs, results, i, Uses(p, i, credits), led, led');
    }
    forall i | k <= i < k + |outs|
      ensures NameOk(cells', vals + Bound(results), env + outs, i, Uses(p.next, i, credits), led')
    {
      hide NameOk, Carries, Uses, Rest, Agree, Kept;
      assert Carries(cells', outs[i - k], results[i - k], Uses(p.next, k + (i - k), credits));
      NameBound(cells', vals, env, outs, results, i - k, Uses(p.next, i, credits), led');
    }
  }

  lemma KeptTrans(cells: seq<Option<bool>>, cells': seq<Option<bool>>, cells'': seq<Option<bool>>, env: seq<Wire>,
                  more: seq<Wire>)
    requires Kept(cells, cells', env) && Kept(cells', cells'', env + more)
    requires forall j :: 0 <= j < |more| && more[j].Slot? ==>
               more[j].index >= |cells| || (more[j].index < |cells'| && cells'[more[j].index].Some?)
    ensures Kept(cells, cells'', env)
  {
    forall a | 0 <= a < |cells| && (cells[a].Some? || Slot(a) !in env) ensures cells''[a] == cells[a] {
      assert cells'[a] == cells[a];
    }
  }

  /**
   * Every single-assignment body that the plain evaluator accepts runs in the direct evaluator with
   * the same output values; only a 16-bit credit counter can overflow.
   */
  lemma {:induction false} PlainRefines(p: Prog, vals: seq<Option<bool>>, env: seq<Wire>, credits: seq<nat>,
                                        outer: Ledger, s: State<bool, nat>)
    requires WellFormed(p, |env|) && |credits| == Arity(p) && Agree(s.cells, vals, env, p, credits, outer)
    requires Plain(p, vals).Some?
    ensures match Eval(ExecuteOps(), p, env, credits, outer, s)
            case Failure(fault) => fault == CreditOverflow
            case Success(o) =>
              && AllCarry(o.state.cells, o.outs, Plain(p, vals).value, credits)
              && Kept(s.cells, o.state.cells, env)
    decreases p
  {
    hide Agree, AllCarry, Uses, Future, WellFormed;
    match p
    case Done(outs) =>
      AgreeDone(s.cells, vals, env, p, credits, outer);
    case Issue(next) =>
      var cells, x := AgreeIssue(s.cells, vals, env, p, credits, outer);
      WellFormedNext(p, |env|);
      PlainRefines(next, vals + [None], env + [x], credits, outer, s.(cells := cells));
      var r := Eval(ExecuteOps(), next, env + [x], credits, outer, s.(cells := cells));
      assert Eval(ExecuteOps(), p, env, credits, outer, s) == r;
      if r.Success? {
        KeptTrans(s.cells, cells, r.value.state.cells, env, [x]);
      }
    case Gate(gt, a, b, c, next) =>
      WellFormedNext(p, |env|);
      var x, y := ValueOf(vals, a).value, ValueOf(vals, b).value;
      var s' := AgreeGate(s, vals, env, p, credits, outer, x, y);
      PlainRefines(next, vals[c := Some(Truth(gt, x, y))], env, credits, outer, s');
      var r := Eval(ExecuteOps(), next, env, credits, outer, s');
      assert Eval(ExecuteOps(), p, env, credits, outer, s) == r;
      if r.Success? {
        assert env + [] == env;
        KeptTrans(s.cells, s'.cells, r.value.state.cells, env, []);
      }
    case Call(_, ins, child, next) =>
      PlainCall(p, vals, env, credits, outer, s);
  }

  lemma WellFormedNext(p: Prog, k: nat)
    requires WellFormed(p, k)
    ensures p.Issue? ==> WellFormed(p.next, k + 1)
    ensures p.Gate? ==> WellFormed(p.next, k)
    ensures p.Call? ==> AllInScope(p.ins, k) && WellFormed(p.child, |p.ins|) && WellFormed(p.next, k + Arity(p.child))
  {
  }

  lemma {:induction false} PlainCall(p: Prog, vals: seq<Option<bool>>, env: seq<Wire>, credits: seq<nat>, outer: Ledger,
                                     s: State<bool, nat>)
    requires p.Call? && WellFormed(p, |env|) && |credits| == Arity(p) && Agree(s.cells, vals, env, p, credits, outer)
    requires Plain(p, vals).Some?
    ensures match Eval(ExecuteOps(), p, env, credits, outer, s)
            case Failure(fault) => fault == CreditOverflow
            case Success(o) =>
              && AllCarry(o.state.cells, o.outs, Plain(p, vals).value, credits)
              && Kept(s.cells, o.state.cells, env)
    decreases p, 0
  {
    hide Agree, Uses, Future, WellFormed;
    WellFormedNext(p, |env|);
    var args := ValuesOf(vals, p.ins).value;
    var xs, childCredits := ResolveAll(env, p.ins), UsesFrom(p.next, |env|, Arity(p.child), credits);
    var rest := Rest(p.next, env, credits, outer);
    AgreeEnter(s, vals, env, p, credits, outer, args, childCredits, rest);
    PlainRefines(p.child, Bound(args), xs, childCredits, rest, s);
    var r := Eval(ExecuteOps(), p.child, xs, childCredits, rest, s);
    if r.Success? && CallFits(p.child, xs, childCredits, Rest(p, env, credits, outer)) {
      var results, o := Plain(p.child, Bound(args)).value, r.value;
      AgreeReturn(s, o.state.cells, vals, env, p, credits, outer, args, o.outs, results);
      KeptThrough(s.cells, o.state.cells, env, p.ins);
      PlainRefines(p.next, vals + Bound(results), env + o.outs, credits, outer, o.state);
      var q := Eval(ExecuteOps(), p.next, env + o.outs, credits, outer, o.state);
      assert Eval(ExecuteOps(), p, env, credits, outer, s) == q;
      if q.Success? {
        forall j | 0 <= j < |o.outs| && o.outs[j].Slot?
          ensures o.outs[j].index < |o.state.cells| && o.state.cells[o.outs[j].index].Some?
        {
          assert Carries(o.state.cells, o.outs[j], results[j], childCredits[j]);
        }
        KeptTrans(s.cells, o.state.cells, q.value.state.cells, env, o.outs);
      }
    }
  }

  // ----- whole circuits

  /** The plain meaning of a circuit on its inputs. */
  function Meaning(p: Prog, inputs: seq<bool>): Option<seq<bool>> {
    Plain(p, Bound(inputs))
  }

  /** The direct run of a circuit that has a plain meaning ends with that meaning in its output wires. */
  lemma RootRefines(p: Prog, inputs: seq<bool>, o: Outcome<bool, nat>)
    requires WellFormed(p, |inputs|) && Meaning(p, inputs).Some?
    requires EvalRoot(ExecuteOps(), 0, p, inputs) == Success(o)
    ensures Readable(o.state.cells, o.outs) && |o.outs| == |Meaning(p, inputs).value|
    ensures forall j :: 0 <= j < |o.outs| ==>
              Read(ExecuteOps(), o.state, o.outs[j]) == Success(Meaning(p, inputs).value[j])
  {
    var n, ones, s := |inputs|, Ones(Arity(p)), State(Inputs(inputs), 0);
    forall i | 0 <= i < n
      ensures NameOk(s.cells, Bound(inputs), Names(n), i, Uses(p, i, ones), Rest(p, Names(n), ones, Nothing))
    {
      assert Carries(s.cells, Names(n)[i], inputs[i], Uses(p, i, ones));
    }
    PlainRefines(p, Bound(inputs), Names(n), ones, Nothing, s);
    forall j | 0 <= j < |o.outs|
      ensures !o.outs[j].Unreachable?
      ensures Read(ExecuteOps(), o.state, o.outs[j]) == Success(Meaning(p, inputs).value[j])
    {
      assert Carries(o.state.cells, o.outs[j], Meaning(p, inputs).value[j], ones[j]);
    }
  }

  /** The direct run of a circuit with a plain meaning can only fail by overflowing a 16-bit counter. */
  lemma RootSucceeds(p: Prog, inputs: seq<bool>)
    requires WellFormed(p, |inputs|) && Meaning(p, inputs).Some?
    ensures EvalRoot(ExecuteOps(), 0, p, inputs).Success?
         || EvalRoot(ExecuteOps(), 0, p, inputs) == Failure(CreditOverflow)
  {
    var n, ones, s := |inputs|, Ones(Arity(p)), State(Inputs(inputs), 0);
    forall i | 0 <= i < n
      ensures NameOk(s.cells, Bound(inputs), Names(n), i, Uses(p, i, ones), Rest(p, Names(n), ones, Nothing))
    {
      assert Carries(s.cells, Names(n)[i], inputs[i], Uses(p, i, ones));
    }
    PlainRefines(p, Bound(inputs), Names(n), ones, Nothing, s);
  }

  /** A circuit with a plain meaning, whose counters do not overflow, runs. */
  lemma PlainRuns(p: Prog, inputs: seq<bool>) returns (o: Outcome<bool, nat>)
    requires WellFormed(p, |inputs|) && RootFits(p, |inputs|) && Meaning(p, inputs).Some?
    requires EvalRoot(ExecuteOps(), 0, p, inputs) != Failure(CreditOverflow)
    ensures Streaming.Runs(ExecuteOps(), 0, p, inputs, o)
  {
    RootSucceeds(p, inputs);
    o := EvalRoot(ExecuteOps(), 0, p, inputs).value;
    RootRefines(p, inputs, o);
  }

  /** A circuit with a plain meaning runs on every input if its peak load fits 16 bits. */
  lemma LightRuns(p: Prog, inputs: seq<bool>) returns (o: Outcome<bool, nat>)
    requires WellFormed(p, |inputs|) && Meaning(p, inputs).Some?
    requires Loads.Peak(p) + Arity(p) < MAX_CREDITS
    ensures Streaming.Runs(ExecuteOps(), 0, p, inputs, o)
  {
    Loads.LightCircuits(ExecuteOps(), 0, p, inputs);
    o := PlainRuns(p, inputs);
  }

  /** The values of the outputs of a run. */
  ghost function OutputsOf(o: Outcome<bool, nat>): (r: seq<bool>)
    requires Readable(o.state.cells, o.outs)
    ensures |r| == |o.outs|
    ensures forall j :: 0 <= j < |r| ==> Read(ExecuteOps(), o.state, o.outs[j]) == Success(r[j])
  {
    seq(|o.outs|, j requires 0 <= j < |o.outs| => Read(ExecuteOps(), o.state, o.outs[j]).value)
  }

  /**
   * Executing a circuit with bounded memory gives the outputs of the run that frees nothing, gates
   * that overwrite their input included, and the plain meaning of a circuit that has one: the
   * recycling of slots, the sentinel for unread wires and the template cache leave no trace in the
   * outputs.
   */
  method StreamingExecute(p: Prog, inputs: seq<bool>, capacity: nat, ghost lib: Streaming.Library,
                          ghost o: Outcome<bool, nat>)
    returns (outs: seq<bool>, live: nat)
    requires capacity > 0 && Streaming.Runs(ExecuteOps(), 0, p, inputs, o)
    requires KeysAgree(p, lib) && Streaming.ROOT_KEY in lib && lib[Streaming.ROOT_KEY] == (p, |inputs|)
    ensures outs == OutputsOf(o) && live == 0
    ensures Meaning(p, inputs).Some? ==> Meaning(p, inputs) == Some(outs)
  {
    if Meaning(p, inputs).Some? {
      RootRefines(p, inputs, o);
    }
    var inputValues, mode;
    inputValues, outs, mode, live := Streaming.RunStreaming(ExecuteOps(), 0, p, inputs, capacity, lib, o);
    assert outs == OutputsOf(o);
    assert Meaning(p, inputs).Some? ==> outs == Meaning(p, inputs).value;
  }

  // ----- writes to a wire that is not read again

  /** Negating an input in place: it aborts if nothing reads the input afterwards, and not if something does. */
  lemma InPlaceExamples()
    ensures EvalRoot(ExecuteOps(), 0, Gate(Not, Slot(0), Slot(0), 0, Done([])), [true]) == Failure(DeadWrite)
    ensures var r := EvalRoot(ExecuteOps(), 0, Gate(Not, Slot(0), Slot(0), 0, Done([Slot(0)])), [true]);
            r.Success? && r.value.outs == [Slot(0)] && r.value.state.cells == [Some(false)]
  {
    var one := Done([Slot(0)]);
    Streaming.InPlaceRoot(ExecuteOps(), 0, Not, 0, Done([]), [true], (1, false));
    Streaming.InPlaceRoot(ExecuteOps(), 0, Not, 0, one, [true], (1, false));
    assert [Slot(0)][..0] == [];
    assert Uses(one, 0, Ones(1)) == 1;
    Streaming.EvalDone(ExecuteOps(), one, Names(1), Ones(1), Nothing, State(Inputs([false]), 1));
    assert ResolveAll(Names(1), [Slot(0)]) == [Slot(0)];
    assert Inputs([true][0 := false]) == [Some(false)];
  }

  /**
   * Writing a wire whose slot another wire has taken since: the direct run reports a dead write, and
   * the slab goes on with the other wire overwritten. Here cell 0 is dead and cell 1 has its slot.
   */
  lemma RecycledWrite(led: Ledger)
    requires forall a: nat :: led(a) == if a == 1 then 1 else 0
    ensures var data := map[0 := Entry(1, Some(true))];
            var s := State([Some(true), Some(true)], 0);
            var lay := Layout.Layout(map[1 := 0], map[0 := 1]);
            && Layout.Holds(data, s.cells, lay, led) && Layout.Stands(Slot(0), Slot(0), lay.loc, 2)
            && GateStep(ExecuteOps(), s, And, FalseWire, FalseWire, Slot(0), led(0) > 0) == Failure(DeadWrite)
            && Streaming.GateOn(ExecuteOps(), 0, data, And, FalseWire, FalseWire, Slot(0))
               == Success((map[0 := Entry(1, Some(false))], 1))
  {
    var data := map[0 := Entry(1, Some(true))];
    assert data[0 := Entry(1, Some(false))] == map[0 := Entry(1, Some(false))];
  }
}
