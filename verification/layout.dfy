/**
 * The refinement between the slab of the streaming run and the cells of the direct evaluator.
 *
 * A cell is held in the slab exactly while uses of it remain, under some slot, and the slot's
 * credits are exactly those uses. A slot index may serve many cells one after the other.
 */
module Layout {
  import opened Wrappers
  import opened Storage
  import opened Programs
  import opened Direct
  import opened ComponentMeta

  /** Where each live cell is stored, and the inverse. */
  datatype Layout = Layout(loc: map<nat, nat>, own: map<nat, nat>)

  ghost predicate Holds<V>(data: Slab<Option<V>>, cells: seq<Option<V>>, lay: Layout, led: Ledger) {
    && (forall a: nat :: a in lay.loc <==> a < |cells| && led(a) > 0)
    && (forall a :: a in lay.loc ==>
         && lay.loc[a] in lay.own && lay.own[lay.loc[a]] == a
         && lay.loc[a] in data && data[lay.loc[a]].credits == led(a) && data[lay.loc[a]].data == cells[a])
    && (forall i :: i in data ==> i in lay.own && lay.own[i] in lay.loc && lay.loc[lay.own[i]] == i)
  }

  /** A wire of the streaming run stands for a wire of the direct evaluator; a dead wire may be stale. */
  ghost predicate Stands(x: Wire, w: Wire, loc: map<nat, nat>, n: nat) {
    match x
    case Slot(a) => a < n && w.Slot? && (a in loc ==> w.index == loc[a])
    case _ => w == x
  }

  ghost predicate AllStand(xs: seq<Wire>, ws: seq<Wire>, loc: map<nat, nat>, n: nat) {
    |xs| == |ws| && forall j :: 0 <= j < |xs| ==> Stands(xs[j], ws[j], loc, n)
  }

  /** Of the first `n` cells, those still live are where they were. */
  ghost predicate Evolves(loc: map<nat, nat>, loc': map<nat, nat>, n: nat) {
    forall a :: a in loc' && a < n ==> a in loc && loc'[a] == loc[a]
  }

  lemma EvolvesTrans(loc: map<nat, nat>, loc': map<nat, nat>, loc'': map<nat, nat>, n: nat, n': nat)
    requires Evolves(loc, loc', n) && Evolves(loc', loc'', n') && n <= n'
    ensures Evolves(loc, loc'', n)
  {
  }

  lemma StandsEvolves(xs: seq<Wire>, ws: seq<Wire>, loc: map<nat, nat>, loc': map<nat, nat>, n: nat, n': nat)
    requires AllStand(xs, ws, loc, n) && Evolves(loc, loc', n) && n <= n'
    ensures AllStand(xs, ws, loc', n')
  {
    forall j | 0 <= j < |xs| ensures Stands(xs[j], ws[j], loc', n') {
      assert Stands(xs[j], ws[j], loc, n);
    }
  }

  lemma StandsResolve(env: seq<Wire>, wires: seq<Wire>, loc: map<nat, nat>, n: nat, w: Wire)
    requires AllStand(env, wires, loc, n) && InScope(w, |env|)
    ensures Stands(Resolve(env, w), Resolve(wires, w), loc, n)
  {
  }

  lemma StandsResolveAll(env: seq<Wire>, wires: seq<Wire>, loc: map<nat, nat>, n: nat, ws: seq<Wire>)
    requires AllStand(env, wires, loc, n) && AllInScope(ws, |env|)
    ensures AllStand(ResolveAll(env, ws), ResolveAll(wires, ws), loc, n)
  {
    forall j | 0 <= j < |ws| ensures Stands(Resolve(env, ws[j]), Resolve(wires, ws[j]), loc, n) {
      StandsResolve(env, wires, loc, n, ws[j]);
    }
  }

  // ----- what each storage operation does to the layout

  ghost function AfterRead(lay: Layout, x: Wire, led: Ledger): Layout {
    if x.Slot? && x.index in lay.loc && led(x.index) == 0
    then Layout(lay.loc - {x.index}, lay.own - {lay.loc[x.index]})
    else lay
  }

  /** A read finds the cell's value; if it was the last use, the slot goes. */
  lemma HoldsRead<V>(data: Slab<Option<V>>, cells: seq<Option<V>>, lay: Layout, led: Ledger, led': Ledger, x: Wire,
                     w: Wire)
    requires Holds(data, cells, lay, led) && Stands(x, w, lay.loc, |cells|)
    requires x.Slot? && led(x.index) > 0
    requires forall a: nat :: led'(a) == led(a) - Hit(x, a)
    ensures w.index in data && data[w.index].data == cells[x.index]
    ensures Holds(Taken(data, w.index), cells, AfterRead(lay, x, led'), led')
    ensures Evolves(lay.loc, AfterRead(lay, x, led').loc, |cells|)
  {
    assert x.index in lay.loc && lay.loc[x.index] == w.index;
    assert led'(x.index) == led(x.index) - 1;
  }

  /** A top-up raises the credits of a live slot. */
  lemma HoldsAdd<V>(data: Slab<Option<V>>, cells: seq<Option<V>>, lay: Layout, led: Ledger, led': Ledger, x: Wire,
                    w: Wire, credits: nat)
    requires Holds(data, cells, lay, led) && Stands(x, w, lay.loc, |cells|)
    requires x.Slot? && led(x.index) > 0 && led(x.index) + credits <= MAX_CREDITS
    requires forall a: nat :: led'(a) == led(a) + if x == Slot(a) then credits else 0
    ensures w.index in data && data[w.index].credits == led(x.index)
    ensures Holds(data[w.index := Entry(data[w.index].credits + credits, data[w.index].data)], cells, lay, led')
  {
    assert x.index in lay.loc && lay.loc[x.index] == w.index;
  }

  /** A fresh cell gets a vacant slot. */
  lemma HoldsAllocate<V>(data: Slab<Option<V>>, cells: seq<Option<V>>, lay: Layout, led: Ledger, led': Ledger, k: nat,
                         credits: Credits)
    requires Holds(data, cells, lay, led) && k !in data
    requires forall a: nat :: a < |cells| ==> led'(a) == led(a)
    requires led'(|cells|) == credits
    ensures Holds(data[k := Entry(credits, None)], cells + [None],
                  Layout(lay.loc[|cells| := k], lay.own[k := |cells|]), led')
    ensures Evolves(lay.loc, lay.loc[|cells| := k], |cells|)
  {
  }

  /** A write lands in the cell's own slot exactly when the cell is live. */
  lemma HoldsSet<V>(data: Slab<Option<V>>, cells: seq<Option<V>>, lay: Layout, led: Ledger, x: Wire, w: Wire,
                    value: Option<V>)
    requires Holds(data, cells, lay, led) && Stands(x, w, lay.loc, |cells|)
    requires x.Slot? && led(x.index) > 0
    ensures w.index in data
    ensures Holds(data[w.index := Entry(data[w.index].credits, value)], cells[x.index := value], lay, led)
  {
    assert x.index in lay.loc && lay.loc[x.index] == w.index;
  }

  /** Ledgers that agree are interchangeable. */
  lemma HoldsSame<V>(data: Slab<Option<V>>, cells: seq<Option<V>>, lay: Layout, led: Ledger, led': Ledger)
    requires Holds(data, cells, lay, led)
    requires forall a: nat :: led'(a) == led(a)
    ensures Holds(data, cells, lay, led')
  {
  }

  // ----- passing wires to a child

  /** One more use of wire `x`. */
  ghost function Plus(x: Wire, led: Ledger): (r: Ledger)
    ensures forall a :: r(a) == Hit(x, a) + led(a)
  {
    a => Hit(x, a) + led(a)
  }

  ghost function PlusAll(xs: seq<Wire>, led: Ledger): (r: Ledger)
    ensures forall a :: r(a) == Hits(xs, a) + led(a)
  {
    a => Hits(xs, a) + led(a)
  }

  /** The uses that the caller still makes of the wires a body returned. */
  ghost function Pending(outs: seq<Wire>, credits: seq<nat>, led: Ledger): (r: Ledger)
    requires |outs| == |credits|
    ensures forall a :: r(a) == Weight(outs, credits, a) + led(a)
  {
    a => Weight(outs, credits, a) + led(a)
  }

  /** The credits that top-ups bring to wire `a`. */
  function TopUpWeight(xs: seq<Wire>, tus: seq<TopUp>, a: nat): nat {
    if |tus| == 0 then 0
    else
      var tu := tus[|tus| - 1];
      TopUpWeight(xs, tus[..|tus| - 1], a) + if tu.position < |xs| && xs[tu.position] == Slot(a) then tu.credits else 0
  }

  ghost function PlusTopUps(xs: seq<Wire>, tus: seq<TopUp>, led: Ledger): (r: Ledger)
    ensures forall a :: r(a) == TopUpWeight(xs, tus, a) + led(a)
  {
    a => TopUpWeight(xs, tus, a) + led(a)
  }

  lemma {:induction false} HitsHead(xs: seq<Wire>, a: nat)
    requires |xs| > 0
    ensures Hits(xs, a) == Hit(xs[0], a) + Hits(xs[1..], a)
  {
    if |xs| > 1 {
      HitsHead(xs[..|xs| - 1], a);
      assert xs[..|xs| - 1][1..] == xs[1..][..|xs| - 2];
    } else {
      assert xs[..0] == [] && xs[1..] == [];
    }
  }

  lemma HitsPositive(xs: seq<Wire>, j: nat, a: nat)
    requires j < |xs| && xs[j] == Slot(a)
    ensures Hits(xs, a) > 0
  {
    if j < |xs| - 1 {
      HitsPositive(xs[..|xs| - 1], j, a);
    }
  }

  lemma TopUpPrefix(xs: seq<Wire>, tus: seq<TopUp>, k: nat, a: nat)
    requires k <= |tus|
    ensures TopUpWeight(xs, tus[..k], a) <= TopUpWeight(xs, tus, a)
    decreases |tus|
  {
    if k < |tus| {
      assert tus[..|tus| - 1][..k] == tus[..k];
      TopUpPrefix(xs, tus[..|tus| - 1], k, a);
    } else {
      assert tus[..k] == tus;
    }
  }

  function Sums(tus: seq<TopUp>, n: nat): (r: seq<nat>)
    ensures |r| == n && forall i :: 0 <= i < n ==> r[i] == TopUpSum(tus, i)
  {
    seq<nat>(n, i requires 0 <= i < n => TopUpSum(tus, i))
  }

  lemma {:induction false} WeightUpdate(ws: seq<Wire>, weights: seq<nat>, j: nat, c: nat, a: nat)
    requires |ws| == |weights| && j < |ws|
    ensures Weight(ws, weights[j := weights[j] + c], a) == Weight(ws, weights, a) + if ws[j] == Slot(a) then c else 0
  {
    var n := |ws| - 1;
    if j < n {
      assert weights[j := weights[j] + c][..n] == weights[..n][j := weights[j] + c];
      WeightUpdate(ws[..n], weights[..n], j, c, a);
    } else {
      assert weights[j := weights[j] + c][..n] == weights[..n];
    }
  }

  lemma {:induction false} WeightZero(ws: seq<Wire>, weights: seq<nat>, a: nat)
    requires |ws| == |weights| && forall i :: 0 <= i < |ws| ==> weights[i] == 0
    ensures Weight(ws, weights, a) == 0
  {
    if |ws| > 0 {
      WeightZero(ws[..|ws| - 1], weights[..|ws| - 1], a);
    }
  }

  lemma {:induction false} TopUpWeightSums(xs: seq<Wire>, tus: seq<TopUp>, a: nat)
    requires forall tu :: tu in tus ==> tu.position < |xs|
    ensures TopUpWeight(xs, tus, a) == Weight(xs, Sums(tus, |xs|), a)
  {
    if |tus| == 0 {
      WeightZero(xs, Sums(tus, |xs|), a);
    } else {
      var n := |tus| - 1;
      var tu, before := tus[n], Sums(tus[..n], |xs|);
      TopUpWeightSums(xs, tus[..n], a);
      WeightUpdate(xs, before, tu.position, tu.credits, a);
      assert Sums(tus, |xs|) == before[tu.position := before[tu.position] + tu.credits];
    }
  }

  /** Top-ups by the uses of each input name amount to the future that the child has for each wire. */
  lemma TopUpsAreFuture(p: Prog, xs: seq<Wire>, credits: seq<nat>, tus: seq<TopUp>, a: nat)
    requires |credits| == Arity(p)
    requires forall tu :: tu in tus ==> tu.position < |xs|
    requires forall i :: 0 <= i < |xs| ==> TopUpSum(tus, i) == Uses(p, i, credits)
    ensures TopUpWeight(xs, tus, a) == Future(p, xs, credits, a)
  {
    TopUpWeightSums(xs, tus, a);
    FutureOfInputs(p, xs, credits, a);
    assert Sums(tus, |xs|) == UsesFrom(p, 0, |xs|, credits);
  }
}
