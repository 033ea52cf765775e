/**
 * Circuit bodies as data, and the read counts that both passes are about.
 *
 * A body names its wires by position: first its inputs, then every wire it issues or receives
 * from a child, in order. `Slot(i)` in a body is the i-th such name, which is also the mock
 * wire id the metadata pass hands out for it.
 */
module Programs {
  import opened Storage
  import opened Gates

  type Key = nat

  datatype Prog =
    | Done(outs: seq<Wire>)
    | Issue(next: Prog)
    | Gate(gt: GateType, a: Wire, b: Wire, c: nat, next: Prog)
    | Call(key: Key, ins: seq<Wire>, child: Prog, next: Prog)

  /** The wires a body returns. */
  function Outs(p: Prog): seq<Wire> {
    match p
    case Done(outs) => outs
    case Issue(next) => Outs(next)
    case Gate(_, _, _, _, next) => Outs(next)
    case Call(_, _, _, next) => Outs(next)
  }

  function Arity(p: Prog): nat {
    |Outs(p)|
  }

  /** How many names a body adds to its inputs. */
  function Issued(p: Prog): nat {
    match p
    case Done(_) => 0
    case Issue(next) => 1 + Issued(next)
    case Gate(_, _, _, _, next) => Issued(next)
    case Call(_, _, child, next) => Arity(child) + Issued(next)
  }

  /** The gates of a body and of every child it calls, as often as it calls it. */
  function GateCount(p: Prog): nat {
    match p
    case Done(_) => 0
    case Issue(next) => GateCount(next)
    case Gate(_, _, _, _, next) => 1 + GateCount(next)
    case Call(_, _, child, next) => GateCount(child) + GateCount(next)
  }

  predicate InScope(w: Wire, k: nat) {
    w.FalseWire? || w.TrueWire? || (w.Slot? && w.index < k)
  }

  predicate AllInScope(ws: seq<Wire>, k: nat) {
    forall j :: 0 <= j < |ws| ==> InScope(ws[j], k)
  }

  /** A body with `k` names so far refers to its own names only. */
  predicate WellFormed(p: Prog, k: nat) {
    match p
    case Done(outs) => AllInScope(outs, k)
    case Issue(next) => WellFormed(next, k + 1)
    case Gate(_, a, b, c, next) => InScope(a, k) && InScope(b, k) && c < k && WellFormed(next, k)
    case Call(_, ins, child, next) =>
      AllInScope(ins, k) && WellFormed(child, |ins|) && WellFormed(next, k + Arity(child))
  }

  /** Every call in `p` uses the body that `lib` holds for its key: the key determines the body. */
  ghost predicate KeysAgree(p: Prog, lib: map<Key, (Prog, nat)>) {
    match p
    case Done(_) => true
    case Issue(next) => KeysAgree(next, lib)
    case Gate(_, _, _, _, next) => KeysAgree(next, lib)
    case Call(key, ins, child, next) =>
      key in lib && lib[key] == (child, |ins|) && KeysAgree(child, lib) && KeysAgree(next, lib)
  }

  // ----- counting

  function Hit(w: Wire, i: nat): nat {
    if w == Slot(i) then 1 else 0
  }

  function Hits(ws: seq<Wire>, i: nat): nat {
    if |ws| == 0 then 0 else Hits(ws[..|ws| - 1], i) + Hit(ws[|ws| - 1], i)
  }

  /** The total weight of the positions of `ws` that hold wire `i`. */
  function Weight(ws: seq<Wire>, weights: seq<nat>, i: nat): nat
    requires |ws| == |weights|
  {
    if |ws| == 0 then 0
    else
      var n := |ws| - 1;
      Weight(ws[..n], weights[..n], i) + if ws[n] == Slot(i) then weights[n] else 0
  }

  /** How often a body reads name `i`: as a gate input, or at a position of a child's inputs. */
  function Reads(p: Prog, i: nat): nat {
    match p
    case Done(_) => 0
    case Issue(next) => Reads(next, i)
    case Gate(_, a, b, _, next) => Hit(a, i) + Hit(b, i) + Reads(next, i)
    case Call(_, ins, _, next) => Hits(ins, i) + Reads(next, i)
  }

  /** Reads of name `i` by the body, plus what the caller will read through its outputs. */
  function Uses(p: Prog, i: nat, credits: seq<nat>): nat
    requires |credits| == Arity(p)
  {
    match p
    case Done(outs) => Weight(outs, credits, i)
    case Issue(next) => Uses(next, i, credits)
    case Gate(_, a, b, _, next) => Hit(a, i) + Hit(b, i) + Uses(next, i, credits)
    case Call(_, ins, _, next) => Hits(ins, i) + Uses(next, i, credits)
  }

  lemma UsesSplit(p: Prog, i: nat, credits: seq<nat>)
    requires |credits| == Arity(p)
    ensures Uses(p, i, credits) == Reads(p, i) + Weight(Outs(p), credits, i)
  {
  }

  /** What a name stands for in a frame; a name the frame has not issued yet stands for nothing. */
  function Resolve(env: seq<Wire>, w: Wire): Wire {
    match w
    case Slot(i) => if i < |env| then env[i] else Unreachable
    case _ => w
  }

  function ResolveAll(env: seq<Wire>, ws: seq<Wire>): (r: seq<Wire>)
    ensures |r| == |ws|
    ensures forall j :: 0 <= j < |ws| ==> r[j] == Resolve(env, ws[j])
  {
    seq(|ws|, j requires 0 <= j < |ws| => Resolve(env, ws[j]))
  }

  /** The uses that body `p` still makes of the stored wire `a`, through the names it has. */
  function Future(p: Prog, env: seq<Wire>, credits: seq<nat>, a: nat): nat
    requires |credits| == Arity(p)
  {
    match p
    case Done(outs) => Weight(ResolveAll(env, outs), credits, a)
    case Issue(next) => Future(next, env, credits, a)
    case Gate(_, x, y, _, next) => Hit(Resolve(env, x), a) + Hit(Resolve(env, y), a) + Future(next, env, credits, a)
    case Call(_, ins, _, next) => Hits(ResolveAll(env, ins), a) + Future(next, env, credits, a)
  }

  // ----- binding one more name

  lemma {:induction false} HitsBind(ws: seq<Wire>, env: seq<Wire>, w: Wire, a: nat)
    ensures Hits(ResolveAll(env + [w], ws), a)
         == Hits(ResolveAll(env, ws), a) + if w == Slot(a) then Hits(ws, |env|) else 0
  {
    if |ws| > 0 {
      var n := |ws| - 1;
      HitsBind(ws[..n], env, w, a);
      assert ResolveAll(env + [w], ws)[..n] == ResolveAll(env + [w], ws[..n]);
      assert ResolveAll(env, ws)[..n] == ResolveAll(env, ws[..n]);
    }
  }

  lemma {:induction false} WeightBind(ws: seq<Wire>, weights: seq<nat>, env: seq<Wire>, w: Wire, a: nat)
    requires |ws| == |weights|
    ensures Weight(ResolveAll(env + [w], ws), weights, a)
         == Weight(ResolveAll(env, ws), weights, a) + if w == Slot(a) then Weight(ws, weights, |env|) else 0
  {
    if |ws| > 0 {
      var n := |ws| - 1;
      WeightBind(ws[..n], weights[..n], env, w, a);
      assert ResolveAll(env + [w], ws)[..n] == ResolveAll(env + [w], ws[..n]);
      assert ResolveAll(env, ws)[..n] == ResolveAll(env, ws[..n]);
    }
  }

  /** Binding the next name to wire `a` adds exactly that name's uses to the future of `a`. */
  lemma {:induction false} FutureBind(p: Prog, env: seq<Wire>, w: Wire, credits: seq<nat>, a: nat)
    requires |credits| == Arity(p)
    ensures Future(p, env + [w], credits, a)
         == Future(p, env, credits, a) + if w == Slot(a) then Uses(p, |env|, credits) else 0
  {
    match p
    case Done(outs) => WeightBind(outs, credits, env, w, a);
    case Issue(next) => FutureBind(next, env, w, credits, a);
    case Gate(_, x, y, _, next) => FutureBind(next, env, w, credits, a);
    case Call(_, ins, _, next) =>
      HitsBind(ins, env, w, a);
      FutureBind(next, env, w, credits, a);
  }

  /** The uses of the next `n` names from `k` on, in order. */
  function UsesFrom(p: Prog, k: nat, n: nat, credits: seq<nat>): (r: seq<nat>)
    requires |credits| == Arity(p)
    ensures |r| == n
    ensures forall j :: 0 <= j < n ==> r[j] == Uses(p, k + j, credits)
  {
    seq<nat>(n, j requires 0 <= j < n => Uses(p, k + j, credits))
  }

  lemma UsesFromPrefix(p: Prog, k: nat, n: nat, credits: seq<nat>)
    requires |credits| == Arity(p)
    ensures UsesFrom(p, k, n + 1, credits)[..n] == UsesFrom(p, k, n, credits)
  {
  }

  /** Binding several names at once, as the outputs of a child are. */
  lemma {:induction false} FutureBindAll(p: Prog, env: seq<Wire>, ws: seq<Wire>, credits: seq<nat>, a: nat)
    requires |credits| == Arity(p)
    ensures Future(p, env + ws, credits, a)
         == Future(p, env, credits, a) + Weight(ws, UsesFrom(p, |env|, |ws|, credits), a)
  {
    if |ws| == 0 {
      assert env + ws == env;
    } else {
      var n := |ws| - 1;
      hide Future, Uses;
      FutureBindAll(p, env, ws[..n], credits, a);
      FutureBind(p, env + ws[..n], ws[n], credits, a);
      assert env + ws == (env + ws[..n]) + [ws[n]];
      UsesFromPrefix(p, |env|, n, credits);
      hide UsesFrom;
    }
  }

  lemma WeightUnbound(ws: seq<Wire>, weights: seq<nat>, a: nat)
    requires |ws| == |weights|
    requires forall j :: 0 <= j < |ws| ==> ws[j] != Slot(a)
    ensures Weight(ws, weights, a) == 0
  {
  }

  lemma HitsUnbound(ws: seq<Wire>, a: nat)
    requires forall j :: 0 <= j < |ws| ==> ws[j] != Slot(a)
    ensures Hits(ws, a) == 0
  {
  }

  /** A wire that no name stands for is not used. */
  lemma {:induction false} FutureUnbound(p: Prog, env: seq<Wire>, credits: seq<nat>, a: nat)
    requires |credits| == Arity(p)
    requires forall j :: 0 <= j < |env| ==> env[j] != Slot(a)
    ensures Future(p, env, credits, a) == 0
  {
    match p
    case Done(outs) => WeightUnbound(ResolveAll(env, outs), credits, a);
    case Issue(next) => FutureUnbound(next, env, credits, a);
    case Gate(_, x, y, _, next) => FutureUnbound(next, env, credits, a);
    case Call(_, ins, _, next) =>
      HitsUnbound(ResolveAll(env, ins), a);
      FutureUnbound(next, env, credits, a);
  }

  /** A body in its initial frame: the future of a wire is the uses of the inputs it is passed as. */
  lemma FutureOfInputs(p: Prog, env: seq<Wire>, credits: seq<nat>, a: nat)
    requires |credits| == Arity(p)
    ensures Future(p, env, credits, a) == Weight(env, UsesFrom(p, 0, |env|, credits), a)
  {
    assert [] + env == env;
    FutureBindAll(p, [], env, credits, a);
    FutureUnbound(p, [], credits, a);
  }

  /** A step that is in scope does not use a name that is not issued yet. */
  lemma HitsInScope(ws: seq<Wire>, k: nat, i: nat)
    requires AllInScope(ws, k) && k <= i
    ensures Hits(ws, i) == 0
  {
  }
}
