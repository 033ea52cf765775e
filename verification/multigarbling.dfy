/**
 * Garbling N instances of one circuit in a single pass, and the proof that lane i is the
 * single-instance garbling of seed i.
 */
module Multigarbling {
  import opened Wrappers
  import opened Gates
  import opened Storage
  import opened Programs
  import opened Direct
  import opened Simulation
  import opened Garbling
  import Execute
  import Streaming

  // ----- randomness

  /** A seeded generator: a fixed stream of labels and a position in it. */
  datatype Rng = Rng(stream: nat -> Label, pos: nat)

  function Draw(rng: Rng): (Label, Rng) {
    (rng.stream(rng.pos), Rng(rng.stream, rng.pos + 1))
  }

  /** How a gate hasher is derived from a generator. */
  type MakeHash = Rng -> (Hash, Rng)

  /** A fresh garbler: hasher, delta, then the zero labels of FALSE and TRUE. */
  function NewGarbler(makeHash: MakeHash, rng: Rng): (Secrets, Rng) {
    NewGarblerFrom(makeHash(rng))
  }

  function NewGarblerFrom(made: (Hash, Rng)): (Secrets, Rng) {
    var (delta, rng) := Draw(made.1);
    var (false0, rng) := Draw(rng);
    var (true0, rng) := Draw(rng);
    (Secrets(made.0, delta, false0, true0), rng)
  }

  /** The draws of a fresh garbler by position: delta, FALSE, TRUE, after whatever the hasher took. */
  lemma NewGarblerDraws(makeHash: MakeHash, rng: Rng)
    ensures var (hash, after) := makeHash(rng);
            var (k, rng') := NewGarbler(makeHash, rng);
            && k.hash == hash && k.delta == after.stream(after.pos)
            && k.false0 == after.stream(after.pos + 1) && k.true0 == after.stream(after.pos + 2)
            && rng' == Rng(after.stream, after.pos + 3)
  {
  }

  /** The zero labels of `n` wires issued one after the other. */
  function IssueLabels(rng: Rng, n: nat): (r: seq<Label>)
    ensures |r| == n && forall j :: 0 <= j < n ==> r[j] == rng.stream(rng.pos + j)
  {
    seq<Label>(n, j requires 0 <= j < n => rng.stream(rng.pos + j))
  }

  /**
   * Fresh lanes. All hashers are made in a first pass over the generators, all other draws happen
   * in a second; each lane still gets what a single garbler with its generator gets: its hasher, and
   * then the next three labels of its own stream as delta, FALSE and TRUE.
   */
  method NewLanes(makeHash: MakeHash, rngs: seq<Rng>) returns (lanes: seq<Secrets>, rngs': seq<Rng>)
    ensures |lanes| == |rngs'| == |rngs|
    ensures forall i :: 0 <= i < |rngs| ==> (lanes[i], rngs'[i]) == NewGarbler(makeHash, rngs[i])
    ensures forall i :: 0 <= i < |rngs| ==>
              var (hash, after) := makeHash(rngs[i]);
              && lanes[i].hash == hash && lanes[i].delta == after.stream(after.pos)
              && lanes[i].false0 == after.stream(after.pos + 1) && lanes[i].true0 == after.stream(after.pos + 2)
              && rngs'[i] == Rng(after.stream, after.pos + 3)
  {
    var hashes: seq<Hash> := [];
    rngs' := rngs;
    for i := 0 to |rngs|
      invariant |hashes| == i && |rngs'| == |rngs|
      invariant forall j :: 0 <= j < i ==> (hashes[j], rngs'[j]) == makeHash(rngs[j])
      invariant forall j :: i <= j < |rngs| ==> rngs'[j] == rngs[j]
    {
      var made := makeHash(rngs'[i]);
      hashes, rngs' := hashes + [made.0], rngs'[i := made.1];
    }
    lanes := [];
    for i := 0 to |rngs|
      invariant |lanes| == i && |rngs'| == |rngs|
      invariant forall j :: 0 <= j < i ==> (lanes[j], rngs'[j]) == NewGarbler(makeHash, rngs[j])
      invariant forall j :: i <= j < |rngs| ==> (hashes[j], rngs'[j]) == makeHash(rngs[j])
    {
      var delta := Draw(rngs'[i]);
      var false0 := Draw(delta.1);
      var true0 := Draw(false0.1);
      lanes, rngs' := lanes + [Secrets(hashes[i], delta.0, false0.0, true0.0)], rngs'[i := true0.1];
    }
    forall i | 0 <= i < |rngs|
      ensures var (hash, after) := makeHash(rngs[i]);
              && lanes[i].hash == hash && lanes[i].delta == after.stream(after.pos)
              && lanes[i].false0 == after.stream(after.pos + 1) && lanes[i].true0 == after.stream(after.pos + 2)
              && rngs'[i] == Rng(after.stream, after.pos + 3)
    {
      NewGarblerDraws(makeHash, rngs[i]);
    }
  }

  /** Issues `n` wires on every lane, one wire at a time across all lanes. */
  method IssueBatches(rngs: seq<Rng>, n: nat) returns (wires: seq<seq<Label>>)
    ensures |wires| == n && forall j :: 0 <= j < n ==> |wires[j]| == |rngs|
    ensures forall i, j :: 0 <= i < |rngs| && 0 <= j < n ==> wires[j][i] == IssueLabels(rngs[i], n)[j]
  {
    wires := [];
    var now := rngs;
    for j := 0 to n
      invariant |wires| == j && |now| == |rngs|
      invariant forall i :: 0 <= i < |rngs| ==> now[i] == Rng(rngs[i].stream, rngs[i].pos + j)
      invariant forall j' :: 0 <= j' < j ==> |wires[j']| == |rngs|
      invariant forall i, j' :: 0 <= i < |rngs| && 0 <= j' < j ==> wires[j'][i] == rngs[i].stream(rngs[i].pos + j')
    {
      var batch: seq<Label> := [];
      for i := 0 to |rngs|
        invariant |batch| == i && |now| == |rngs|
        invariant forall i' :: 0 <= i' < i ==> batch[i'] == rngs[i'].stream(rngs[i'].pos + j)
        invariant forall i' :: 0 <= i' < i ==> now[i'] == Rng(rngs[i'].stream, rngs[i'].pos + j + 1)
        invariant forall i' :: i <= i' < |rngs| ==> now[i'] == Rng(rngs[i'].stream, rngs[i'].pos + j)
      {
        var d := Draw(now[i]);
        batch, now := batch + [d.0], now[i := d.1];
      }
      wires := wires + [batch];
    }
  }

  // ----- the batched backend

  datatype Multigarbler = Multigarbler(index: nat, out: seq<seq<Label>>)

  function ZeroLabel(): Label {
    seq(LABEL_BITS, i => false)
  }

  function At(labels: seq<Label>, i: nat): Label {
    if i < |labels| then labels[i] else ZeroLabel()
  }

  /** One gate on all lanes, lane by lane. */
  function BatchGate(lanes: seq<Secrets>, gt: GateType, a0s: seq<Label>, b0s: seq<Label>,
                     id: nat): (seq<Label>, Option<seq<Label>>) {
    (seq<Label>(|lanes|, i requires 0 <= i < |lanes| =>
       GarbleGate(lanes[i].hash, gt, At(a0s, i), At(b0s, i), lanes[i].delta, id).0),
     if IsFree(gt) then None
     else Some(seq<Label>(|lanes|, i requires 0 <= i < |lanes| =>
                 Ciphertext(lanes[i], gt, At(a0s, i), At(b0s, i), id))))
  }

  function Ciphertext(k: Secrets, gt: GateType, a0: Label, b0: Label, id: nat): Label {
    var ct := GarbleGate(k.hash, gt, a0, b0, k.delta, id).1;
    if ct.Some? then ct.value else ZeroLabel()
  }

  /** The batched garbling loops of the source. */
  method GarbleGateBatch(lanes: seq<Secrets>, gt: GateType, a0s: seq<Label>, b0s: seq<Label>, id: nat)
    returns (c: seq<Label>, ct: Option<seq<Label>>)
    requires |a0s| == |b0s| == |lanes|
    ensures (c, ct) == BatchGate(lanes, gt, a0s, b0s, id)
  {
    hide Mix, BatchGate;
    if IsFree(gt) {
      c := GarbleFreeBatch(lanes, gt, a0s, b0s, id);
      ct := None;
    } else {
      var cts;
      c, cts := GarbleAndBatch(lanes, gt, a0s, b0s, id);
      ct := Some(cts);
    }
    BatchByLane(lanes, gt, a0s, b0s, id, c, ct);
  }

  lemma BatchByLane(lanes: seq<Secrets>, gt: GateType, a0s: seq<Label>, b0s: seq<Label>, id: nat, c: seq<Label>,
                    ct: Option<seq<Label>>)
    requires |a0s| == |b0s| == |lanes| == |c| && (ct.None? <==> IsFree(gt)) && (ct.Some? ==> |ct.value| == |lanes|)
    requires forall i :: 0 <= i < |lanes| ==>
               c[i] == GarbleGate(lanes[i].hash, gt, a0s[i], b0s[i], lanes[i].delta, id).0
    requires ct.Some? ==> forall i :: 0 <= i < |lanes| ==> ct.value[i] == Ciphertext(lanes[i], gt, a0s[i], b0s[i], id)
    ensures (c, ct) == BatchGate(lanes, gt, a0s, b0s, id)
  {
    hide GarbleGate, Ciphertext;
    assert c == BatchGate(lanes, gt, a0s, b0s, id).0;
    if ct.Some? {
      assert ct.value == BatchGate(lanes, gt, a0s, b0s, id).1.value;
    }
  }

  /** The loops for the free gates. */
  method GarbleFreeBatch(lanes: seq<Secrets>, gt: GateType, a0s: seq<Label>, b0s: seq<Label>, id: nat)
    returns (c: seq<Label>)
    requires |a0s| == |b0s| == |lanes| && IsFree(gt)
    ensures |c| == |lanes|
    ensures forall i :: 0 <= i < |lanes| ==> c[i] == GarbleGate(lanes[i].hash, gt, a0s[i], b0s[i], lanes[i].delta, id).0
  {
    hide Mix;
    c := seq(|lanes|, i => ZeroLabel());
    for i := 0 to |lanes|
      invariant |c| == |lanes|
      invariant forall j :: 0 <= j < i ==> c[j] == GarbleGate(lanes[j].hash, gt, a0s[j], b0s[j], lanes[j].delta, id).0
    {
      c := c[i := if gt == Xor then Mix(a0s[i], b0s[i])
                  else if gt == Xnor then Mix(Mix(a0s[i], b0s[i]), lanes[i].delta)
                  else Mix(a0s[i], lanes[i].delta)];
    }
  }

  /** The loop for the others. */
  method GarbleAndBatch(lanes: seq<Secrets>, gt: GateType, a0s: seq<Label>, b0s: seq<Label>, id: nat)
    returns (c: seq<Label>, cts: seq<Label>)
    requires |a0s| == |b0s| == |lanes| && !IsFree(gt)
    ensures |c| == |cts| == |lanes|
    ensures forall i :: 0 <= i < |lanes| ==> c[i] == GarbleGate(lanes[i].hash, gt, a0s[i], b0s[i], lanes[i].delta, id).0
    ensures forall i :: 0 <= i < |lanes| ==> cts[i] == Ciphertext(lanes[i], gt, a0s[i], b0s[i], id)
  {
    hide Mix, GarbleGate;
    var al := AlphasConst(gt);
    c, cts := seq(|lanes|, i => ZeroLabel()), seq(|lanes|, i => ZeroLabel());
    for i := 0 to |lanes|
      invariant |c| == |cts| == |lanes|
      invariant forall j :: 0 <= j < i ==>
                  && c[j] == GarbleGate(lanes[j].hash, gt, a0s[j], b0s[j], lanes[j].delta, id).0
                  && cts[j] == Ciphertext(lanes[j], gt, a0s[j], b0s[j], id)
    {
      var d := lanes[i].delta;
      var selected, other := if al.a then Mix(a0s[i], d) else a0s[i], if al.a then a0s[i] else Mix(a0s[i], d);
      var hSelected, hOther := lanes[i].hash(selected, id), lanes[i].hash(other, id);
      var bSel := if al.b then Mix(b0s[i], d) else b0s[i];
      NonFree(lanes[i].hash, gt, a0s[i], b0s[i], d, id, ZeroLabel(), ZeroLabel(), false, ZeroLabel());
      cts := cts[i := Mix(Mix(hSelected, hOther), bSel)];
      c := c[i := if al.c then Mix(hSelected, d) else hSelected];
    }
  }

  function MultiStep(lanes: seq<Secrets>, m: Multigarbler, gt: GateType, a: seq<Label>,
                     b: seq<Label>): (Multigarbler, seq<Label>) {
    var (c, ct) := BatchGate(lanes, gt, a, b, m.index);
    (Multigarbler(m.index + 1, if ct.Some? then m.out + [ct.value] else m.out), c)
  }

  function MultiOps(lanes: seq<Secrets>): Backend<seq<Label>, Multigarbler> {
    Backend(
      (m: Multigarbler) => seq<Label>(|lanes|, i requires 0 <= i < |lanes| => lanes[i].false0),
      (m: Multigarbler) => seq<Label>(|lanes|, i requires 0 <= i < |lanes| => lanes[i].true0),
      (m: Multigarbler) => Multigarbler(m.index + 1, m.out),
      (m: Multigarbler, gt: GateType, a: seq<Label>, b: seq<Label>) => Some(MultiStep(lanes, m, gt, a, b)))
  }

  // ----- one lane

  ghost function Lane(i: nat): (seq<Label>, Label) -> bool {
    (labels: seq<Label>, l: Label) => i < |labels| && labels[i] == l
  }

  /** The lane counts the same gates and has streamed the same ciphertexts. */
  ghost function LaneModes(i: nat): (Multigarbler, Garbler) -> bool {
    (m: Multigarbler, g: Garbler) =>
      && m.index == g.index && |m.out| == |g.out|
      && forall j :: 0 <= j < |m.out| ==> i < |m.out[j]| && m.out[j][i] == g.out[j]
  }

  lemma LaneStep(lanes: seq<Secrets>, i: nat, m: Multigarbler, g: Garbler, gt: GateType, a: seq<Label>, b: seq<Label>,
                 a0: Label, b0: Label)
    requires i < |lanes| && LaneModes(i)(m, g) && Lane(i)(a, a0) && Lane(i)(b, b0)
    ensures LaneModes(i)(MultiStep(lanes, m, gt, a, b).0, GarbleStep(lanes[i], g, gt, a0, b0).0)
    ensures Lane(i)(MultiStep(lanes, m, gt, a, b).1, GarbleStep(lanes[i], g, gt, a0, b0).1)
  {
    hide Mix;
    assert GarbleGate(lanes[i].hash, gt, a0, b0, lanes[i].delta, g.index).1.Some? <==> !IsFree(gt);
  }

  lemma LaneConstants(lanes: seq<Secrets>, i: nat, m: Multigarbler, g: Garbler)
    requires i < |lanes| && LaneModes(i)(m, g)
    ensures var ops, ops' := MultiOps(lanes), GarbleOps(lanes[i]);
            && Lane(i)(ops.falseValue(m), ops'.falseValue(g)) && Lane(i)(ops.trueValue(m), ops'.trueValue(g))
            && LaneModes(i)(ops.skip(m), ops'.skip(g))
  {
  }

  lemma LaneMatches(lanes: seq<Secrets>, i: nat)
    requires i < |lanes|
    ensures Matches(MultiOps(lanes), GarbleOps(lanes[i]), Lane(i), LaneModes(i), Always())
  {
    hide MultiStep, GarbleStep, Lane, LaneModes;
    var ops, ops' := MultiOps(lanes), GarbleOps(lanes[i]);
    forall m, n | LaneModes(i)(m, n)
      ensures Lane(i)(ops.falseValue(m), ops'.falseValue(n)) && Lane(i)(ops.trueValue(m), ops'.trueValue(n))
      ensures LaneModes(i)(ops.skip(m), ops'.skip(n))
    {
      LaneConstants(lanes, i, m, n);
    }
    forall m, n, gt, x, y, x', y' | LaneModes(i)(m, n) && Lane(i)(x, x') && Lane(i)(y, y')
                                 && ops.step(m, gt, x, y).Some? && Always<Multigarbler>()(ops.step(m, gt, x, y).value.0)
      ensures ops'.step(n, gt, x', y').Some?
      ensures LaneModes(i)(ops.step(m, gt, x, y).value.0, ops'.step(n, gt, x', y').value.0)
      ensures Lane(i)(ops.step(m, gt, x, y).value.1, ops'.step(n, gt, x', y').value.1)
    {
      LaneStep(lanes, i, m, n, gt, x, y, x', y');
    }
  }

  lemma MultiMatchesExecute(lanes: seq<Secrets>)
    ensures Matches(Execute.ExecuteOps(), MultiOps(lanes), Anything(), Anything(), Always())
  {
  }

  /**
   * Whenever the boolean run of a circuit succeeds, so does its multigarbling, and lane i of that
   * run is the garbling of the single instance with the secrets and input labels of lane i, wire
   * by wire and ciphertext by ciphertext.
   */
  lemma LaneIsGarbling(p: Prog, bits: seq<bool>, inputs: seq<seq<Label>>, lanes: seq<Secrets>, i: nat,
                       labels: seq<Label>, o: Outcome<bool, nat>)
    returns (om: Outcome<seq<Label>, Multigarbler>, og: Outcome<Label, Garbler>)
    requires i < |lanes| && |inputs| == |bits| == |labels| && EvalRoot(Execute.ExecuteOps(), 0, p, bits) == Success(o)
    requires forall j :: 0 <= j < |bits| ==> i < |inputs[j]| && labels[j] == inputs[j][i]
    ensures EvalRoot(MultiOps(lanes), Multigarbler(0, []), p, inputs) == Success(om)
    ensures EvalRoot(GarbleOps(lanes[i]), Garbler(0, []), p, labels) == Success(og)
    ensures om.outs == o.outs == og.outs && CellsMatch(o.state.cells, om.state.cells, Anything())
    ensures CellsMatch(om.state.cells, og.state.cells, Lane(i)) && LaneModes(i)(om.state.mode, og.state.mode)
    ensures og.state.mode.index == GateCount(p)
  {
    hide Mix, Matches, Eval, Counting;
    var env, ones := Names(|bits|), Ones(Arity(p));
    var s, m := State(Inputs(bits), 0), State(Inputs(inputs), Multigarbler(0, []));
    var g := State(Inputs(labels), Garbler(0, []));
    MultiMatchesExecute(lanes);
    om := RunMatches(Execute.ExecuteOps(), MultiOps(lanes), Anything(), Anything(), Always(), p, env, ones, Nothing, s,
                     m, o);
    LaneMatches(lanes, i);
    og := RunMatches(MultiOps(lanes), GarbleOps(lanes[i]), Lane(i), LaneModes(i), Always(), p, env, ones, Nothing, m, g,
                     om);
    GarblerCounts(lanes[i]);
    RunCounts(GarbleOps(lanes[i]), (m: Garbler) => m.index, p, env, ones, Nothing, g, og);
  }

  // ----- from seeds to outputs

  /** The labels that the N lanes issue for `n` inputs, seen from one lane. */
  lemma LaneInputs(rngs: seq<Rng>, n: nat, wires: seq<seq<Label>>, i: nat)
    requires i < |rngs| && |wires| == n && forall j :: 0 <= j < n ==> |wires[j]| == |rngs|
    requires forall i, j :: 0 <= i < |rngs| && 0 <= j < n ==> wires[j][i] == IssueLabels(rngs[i], n)[j]
    ensures forall j :: 0 <= j < n ==> i < |wires[j]| && IssueLabels(rngs[i], n)[j] == wires[j][i]
  {
  }

  /** Every output of a lane that can be read. */
  lemma LaneOutputs(s: State<seq<Label>, Multigarbler>, t: State<Label, Garbler>, lanes: seq<Secrets>, i: nat, w: Wire)
    requires i < |lanes| && CellsMatch(s.cells, t.cells, Lane(i)) && Read(MultiOps(lanes), s, w).Success?
    ensures Read(GarbleOps(lanes[i]), t, w).Success?
    ensures i < |Read(MultiOps(lanes), s, w).value|
    ensures Read(MultiOps(lanes), s, w).value[i] == Read(GarbleOps(lanes[i]), t, w).value
  {
  }

  /**
   * N instances garbled in one bounded-memory run from N generators, and one of them garbled alone
   * in another from its own generator: lane i of the first run has the output labels, the gate
   * count and the ciphertext stream of the second.
   */
  method MultigarbleThenLane(p: Prog, ghost bits: seq<bool>, n: nat, makeHash: MakeHash, rngs: seq<Rng>, i: nat,
                             capacity: nat, ghost lib: Streaming.Library, ghost o: Outcome<bool, nat>)
    returns (outs: seq<seq<Label>>, m: Multigarbler, single: seq<Label>, g: Garbler)
    requires capacity > 0 && i < |rngs| && n == |bits| && Streaming.Runs(Execute.ExecuteOps(), 0, p, bits, o)
    requires KeysAgree(p, lib) && Streaming.ROOT_KEY in lib && lib[Streaming.ROOT_KEY] == (p, n)
    ensures |outs| == |single| == |o.outs|
    ensures forall j :: 0 <= j < |outs| ==> i < |outs[j]| && outs[j][i] == single[j]
    ensures m.index == g.index == GateCount(p) && |m.out| == |g.out|
    ensures forall j :: 0 <= j < |m.out| ==> i < |m.out[j]| && m.out[j][i] == g.out[j]
  {
    hide Mix, Eval, Lane;
    var lanes, rngs' := NewLanes(makeHash, rngs);
    var inputs := IssueBatches(rngs', n);
    var (k, rng) := NewGarbler(makeHash, rngs[i]);
    assert (lanes[i], rngs'[i]) == (k, rng);
    var labels := IssueLabels(rng, n);
    LaneInputs(rngs', n, inputs, i);
    ghost var om, og := LaneIsGarbling(p, bits, inputs, lanes, i, labels, o);
    ReadableMatches(o.state.cells, om.state.cells, Anything(), o.outs);
    ReadableMatches(om.state.cells, og.state.cells, Lane(i), o.outs);
    hide CellsMatch, Readable, RootFits, WellFormed;
    var multiInputs, labelInputs, live;
    multiInputs, outs, m, live :=
      Streaming.RunStreaming(MultiOps(lanes), Multigarbler(0, []), p, inputs, capacity, lib, om);
    labelInputs, single, g, live := Streaming.RunStreaming(GarbleOps(k), Garbler(0, []), p, labels, capacity, lib, og);
    forall j | 0 <= j < |outs|
      ensures i < |outs[j]| && outs[j][i] == single[j]
    {
      LaneOutputs(om.state, og.state, lanes, i, om.outs[j]);
    }
  }
}
