/**
 * The metadata pass: count the reads of every wire of a body, without any values.
 * The counts, stored by position, are the template of the component; instantiating a template
 * gives the credit stack of one call and the top-ups its input wires need.
 */
module ComponentMeta {
  import opened Storage
  import opened Programs

  datatype OutputType = Internal(index: nat) | Input(position: nat) | Constant

  datatype Template = Template(credits: seq<nat>, inputCredits: seq<nat>, outputs: seq<OutputType>)

  /** Extra credits for the wire passed at an input position. */
  datatype TopUp = TopUp(position: nat, credits: nat)

  type Counter = c: int | 0 <= c <= MAX_CREDITS

  function OutputTypeOf(w: Wire, inputLen: nat): OutputType {
    match w
    case Slot(i) => if i < inputLen then Input(i) else Internal(i - inputLen)
    case _ => Constant
  }

  function OutputTypes(ws: seq<Wire>, inputLen: nat): seq<OutputType> {
    seq(|ws|, j requires 0 <= j < |ws| => OutputTypeOf(ws[j], inputLen))
  }

  function ReadsFrom(p: Prog, k: nat, n: nat): seq<nat> {
    seq<nat>(n, j requires 0 <= j < n => Reads(p, k + j))
  }

  /** What the metadata pass must find for a body with `k` inputs. */
  function TemplateOf(p: Prog, k: nat): Template {
    Template(ReadsFrom(p, k, Issued(p)), ReadsFrom(p, 0, k), OutputTypes(Outs(p), k))
  }

  /** No 16-bit counter of the frame overflows: neither a read count nor its sum with the output credits. */
  ghost predicate Fits(p: Prog, k: nat, credits: seq<nat>)
    requires |credits| == Arity(p)
  {
    forall i :: 0 <= i < k + Issued(p) ==> Uses(p, i, credits) <= MAX_CREDITS
  }

  class Builder {
    var credits: seq<Counter>
    var inputLen: nat

    constructor (inputCount: nat)
      ensures credits == [] && inputLen == inputCount
    {
      credits, inputLen := [], inputCount;
    }

    method IssueWire() returns (w: Wire)
      modifies this`credits
      ensures w == Slot(|old(credits)|) && credits == old(credits) + [0]
    {
      w := Slot(|credits|);
      credits := credits + [0];
    }

    /** One more read of a wire; constants are not counted. */
    method Bump(w: Wire)
      requires InScope(w, |credits|)
      requires w.Slot? ==> credits[w.index] < MAX_CREDITS
      modifies this`credits
      ensures |credits| == |old(credits)|
      ensures forall i :: 0 <= i < |credits| ==> credits[i] == old(credits)[i] + Hit(w, i)
    {
      if w.Slot? {
        credits := credits[w.index := credits[w.index] + 1];
      }
    }

    method IncrementCredits(ws: seq<Wire>)
      requires AllInScope(ws, |credits|)
      requires forall i :: 0 <= i < |credits| ==> credits[i] + Hits(ws, i) <= MAX_CREDITS
      modifies this`credits
      ensures |credits| == |old(credits)|
      ensures forall i :: 0 <= i < |credits| ==> credits[i] == old(credits)[i] + Hits(ws, i)
    {
      for j := 0 to |ws|
        invariant |credits| == |old(credits)|
        invariant forall i :: 0 <= i < |credits| ==> credits[i] == old(credits)[i] + Hits(ws[..j], i)
      {
        forall i | 0 <= i < |credits|
          ensures Hits(ws[..j + 1], i) == Hits(ws[..j], i) + Hit(ws[j], i)
          ensures Hits(ws[..j + 1], i) <= Hits(ws, i)
        {
          assert ws[..j + 1][..j] == ws[..j];
          HitsPrefix(ws, j + 1, i);
        }
        Bump(ws[j]);
      }
      assert ws[..|ws|] == ws;
    }

    /** Runs a body in the metadata pass. A call reads its inputs and issues mock outputs. */
    method Pass(p: Prog)
      requires WellFormed(p, |credits|)
      requires forall i :: 0 <= i < |credits| ==> credits[i] + Reads(p, i) <= MAX_CREDITS
      requires forall i :: |credits| <= i < |credits| + Issued(p) ==> Reads(p, i) <= MAX_CREDITS
      modifies this`credits
      ensures |credits| == |old(credits)| + Issued(p)
      ensures forall i :: 0 <= i < |old(credits)| ==> credits[i] == old(credits)[i] + Reads(p, i)
      ensures forall i :: |old(credits)| <= i < |credits| ==> credits[i] == Reads(p, i)
      decreases p
    {
      match p
      case Done(_) =>
      case Issue(next) =>
        assert forall i {:trigger Reads(next, i)} :: Reads(p, i) == Reads(next, i);
        var _ := IssueWire();
        Pass(next);
      case Gate(_, a, b, _, next) =>
        assert forall i {:trigger Reads(next, i)} :: Reads(p, i) == Hit(a, i) + Hit(b, i) + Reads(next, i);
        Bump(a);
        Bump(b);
        Pass(next);
      case Call(_, ins, child, next) =>
        ghost var k := |credits|;
        assert forall i {:trigger Reads(next, i)}{:trigger Hits(ins, i)} ::
            Reads(p, i) == Hits(ins, i) + Reads(next, i);
        IncrementCredits(ins);
        forall i | k <= i ensures Hits(ins, i) == 0 { HitsInScope(ins, k, i); }
        for j := 0 to Arity(child)
          invariant |credits| == k + j
          invariant forall i :: 0 <= i < k ==> credits[i] == old(credits)[i] + Hits(ins, i)
          invariant forall i :: k <= i < k + j ==> credits[i] == 0
        {
          var _ := IssueWire();
        }
        Pass(next);
    }

    method Build(outs: seq<Wire>) returns (t: Template)
      requires inputLen <= |credits| && AllInScope(outs, |credits|)
      ensures t == Template(credits[inputLen..], credits[..inputLen], OutputTypes(outs, inputLen))
    {
      t := Template(credits[inputLen..], credits[..inputLen], OutputTypes(outs, inputLen));
    }
  }

  lemma HitsPrefix(ws: seq<Wire>, n: nat, i: nat)
    requires n <= |ws|
    ensures Hits(ws[..n], i) <= Hits(ws, i)
    decreases |ws|
  {
    if n < |ws| {
      assert ws[..|ws| - 1][..n] == ws[..n];
      HitsPrefix(ws[..|ws| - 1], n, i);
    } else {
      assert ws[..n] == ws;
    }
  }

  /** The whole metadata pass over a component: it finds exactly the read counts of the body. */
  method BuildTemplate(p: Prog, inputCount: nat) returns (t: Template)
    requires WellFormed(p, inputCount)
    requires forall i :: 0 <= i < inputCount + Issued(p) ==> Reads(p, i) <= MAX_CREDITS
    ensures t == TemplateOf(p, inputCount)
  {
    var meta := new Builder(inputCount);
    for j := 0 to inputCount
      invariant meta.inputLen == inputCount
      invariant |meta.credits| == j && forall i :: 0 <= i < j ==> meta.credits[i] == 0
    {
      var _ := meta.IssueWire();
    }
    meta.Pass(p);
    OutsInScope(p, inputCount);
    t := meta.Build(Outs(p));
    assert t.credits == ReadsFrom(p, inputCount, Issued(p));
    assert t.inputCredits == ReadsFrom(p, 0, inputCount);
  }

  lemma OutsInScope(p: Prog, k: nat)
    requires WellFormed(p, k)
    ensures AllInScope(Outs(p), k + Issued(p))
  {
  }

  // ----- instantiating a template

  /** Credits of the internal wires once the output credits are routed to them. */
  function Routed(credits: seq<nat>, outs: seq<OutputType>, outCredits: seq<nat>): (r: seq<nat>)
    requires |outs| == |outCredits|
    requires forall o :: o in outs && o.Internal? ==> o.index < |credits|
    ensures |r| == |credits|
  {
    if |outs| == 0 then credits
    else
      var n := |outs| - 1;
      var r := Routed(credits, outs[..n], outCredits[..n]);
      if outs[n].Internal? then r[outs[n].index := r[outs[n].index] + outCredits[n]] else r
  }

  function InputTopUps(inputCredits: seq<nat>): seq<TopUp> {
    if |inputCredits| == 0 then []
    else
      var n := |inputCredits| - 1;
      InputTopUps(inputCredits[..n]) + if inputCredits[n] > 0 then [TopUp(n, inputCredits[n])] else []
  }

  function OutputTopUps(outs: seq<OutputType>, outCredits: seq<nat>): seq<TopUp>
    requires |outs| == |outCredits|
  {
    if |outs| == 0 then []
    else
      var n := |outs| - 1;
      OutputTopUps(outs[..n], outCredits[..n])
      + if outs[n].Input? && outCredits[n] > 0 then [TopUp(outs[n].position, outCredits[n])] else []
  }

  function Reversed(s: seq<nat>): (r: seq<nat>)
    ensures |r| == |s| && forall i :: 0 <= i < |s| ==> r[i] == s[|s| - 1 - i]
  {
    seq<nat>(|s|, i requires 0 <= i < |s| => s[|s| - 1 - i])
  }

  /**
   * The credit stack of one call (top at the end) and, in order, the top-ups that the source
   * applies through its callback.
   */
  method ToInstance(t: Template, outCredits: seq<nat>) returns (stack: seq<nat>, topUps: seq<TopUp>)
    requires |t.outputs| == |outCredits|
    requires forall o :: o in t.outputs && o.Internal? ==> o.index < |t.credits|
    ensures stack == Reversed(Routed(t.credits, t.outputs, outCredits))
    ensures topUps == InputTopUps(t.inputCredits) + OutputTopUps(t.outputs, outCredits)
  {
    topUps := [];
    for i := 0 to |t.inputCredits|
      invariant topUps == InputTopUps(t.inputCredits[..i])
    {
      assert t.inputCredits[..i + 1][..i] == t.inputCredits[..i];
      if t.inputCredits[i] > 0 {
        topUps := topUps + [TopUp(i, t.inputCredits[i])];
      }
    }
    assert t.inputCredits[..|t.inputCredits|] == t.inputCredits;
    var credits := t.credits;
    for j := 0 to |outCredits|
      invariant |credits| == |t.credits|
      invariant credits == Routed(t.credits, t.outputs[..j], outCredits[..j])
      invariant topUps == InputTopUps(t.inputCredits) + OutputTopUps(t.outputs[..j], outCredits[..j])
    {
      assert t.outputs[..j + 1][..j] == t.outputs[..j];
      assert outCredits[..j + 1][..j] == outCredits[..j];
      assert t.outputs[j] in t.outputs;
      match t.outputs[j]
      case Constant =>
      case Input(position) =>
        if outCredits[j] > 0 {
          topUps := topUps + [TopUp(position, outCredits[j])];
        }
      case Internal(index) =>
        credits := credits[index := credits[index] + outCredits[j]];
    }
    assert t.outputs[..|outCredits|] == t.outputs && outCredits[..|outCredits|] == outCredits;
    stack := Reversed(credits);
  }

  // ----- what an instance means

  function TopUpSum(tus: seq<TopUp>, i: nat): nat {
    if |tus| == 0 then 0
    else TopUpSum(tus[..|tus| - 1], i) + if tus[|tus| - 1].position == i then tus[|tus| - 1].credits else 0
  }

  lemma TopUpSumConcat(xs: seq<TopUp>, ys: seq<TopUp>, i: nat)
    ensures TopUpSum(xs + ys, i) == TopUpSum(xs, i) + TopUpSum(ys, i)
  {
    if |ys| == 0 {
      assert xs + ys == xs;
    } else {
      assert (xs + ys)[..|xs + ys| - 1] == xs + ys[..|ys| - 1];
    }
  }

  lemma TopUpSumSingle(tu: TopUp, i: nat)
    ensures TopUpSum([tu], i) == (if tu.position == i then tu.credits else 0) && TopUpSum([], i) == 0
  {
    assert [tu][..0] == [];
  }

  lemma {:induction false} InputTopUpSum(inputCredits: seq<nat>, i: nat)
    ensures TopUpSum(InputTopUps(inputCredits), i) == if i < |inputCredits| then inputCredits[i] else 0
    ensures forall tu :: tu in InputTopUps(inputCredits) ==> tu.position < |inputCredits| && tu.credits > 0
  {
    if |inputCredits| > 0 {
      var n := |inputCredits| - 1;
      InputTopUpSum(inputCredits[..n], i);
      hide TopUpSum;
      TopUpSumSingle(TopUp(n, inputCredits[n]), i);
      TopUpSumConcat(InputTopUps(inputCredits[..n]), if inputCredits[n] > 0 then [TopUp(n, inputCredits[n])] else [],
                     i);
    }
  }

  lemma {:induction false} OutputTopUpSum(ws: seq<Wire>, k: nat, weights: seq<nat>, i: nat)
    requires |ws| == |weights|
    ensures TopUpSum(OutputTopUps(OutputTypes(ws, k), weights), i) == if i < k then Weight(ws, weights, i) else 0
    ensures forall tu :: tu in OutputTopUps(OutputTypes(ws, k), weights) ==> tu.position < k && tu.credits > 0
  {
    if |ws| > 0 {
      var n := |ws| - 1;
      OutputTopUpSum(ws[..n], k, weights[..n], i);
      assert OutputTypes(ws, k)[..n] == OutputTypes(ws[..n], k);
      var o := OutputTypes(ws, k)[n];
      hide TopUpSum;
      TopUpSumSingle(TopUp(if o.Input? then o.position else 0, weights[n]), i);
      TopUpSumConcat(OutputTopUps(OutputTypes(ws[..n], k), weights[..n]),
                     if o.Input? && weights[n] > 0 then [TopUp(o.position, weights[n])] else [], i);
    }
  }

  lemma {:induction false} RoutedAt(credits: seq<nat>, ws: seq<Wire>, k: nat, weights: seq<nat>, i: nat)
    requires |ws| == |weights| && i < |credits|
    requires forall o :: o in OutputTypes(ws, k) && o.Internal? ==> o.index < |credits|
    ensures Routed(credits, OutputTypes(ws, k), weights)[i] == credits[i] + Weight(ws, weights, k + i)
  {
    if |ws| > 0 {
      var n := |ws| - 1;
      assert OutputTypes(ws, k)[..n] == OutputTypes(ws[..n], k);
      assert forall o :: o in OutputTypes(ws[..n], k) ==> o in OutputTypes(ws, k);
      RoutedAt(credits, ws[..n], k, weights[..n], i);
      assert OutputTypes(ws, k)[n] in OutputTypes(ws, k);
    }
  }

  lemma OutputIndices(p: Prog, k: nat)
    requires WellFormed(p, k)
    ensures forall o :: o in TemplateOf(p, k).outputs && o.Internal? ==> o.index < Issued(p)
    ensures forall o :: o in TemplateOf(p, k).outputs && o.Input? ==> o.position < k
  {
    OutsInScope(p, k);
  }

  /**
   * Instantiating the template of a body gives every internal wire the uses of its name, in
   * issue order, and tops every input position up by the uses of its name.
   */
  lemma InstanceMeaning(p: Prog, k: nat, outCredits: seq<nat>)
    requires WellFormed(p, k) && |outCredits| == Arity(p)
    ensures forall o :: o in TemplateOf(p, k).outputs && o.Internal? ==> o.index < Issued(p)
    ensures var t := TemplateOf(p, k);
            Routed(t.credits, t.outputs, outCredits) == UsesFrom(p, k, Issued(p), outCredits)
    ensures var t := TemplateOf(p, k);
            var tus := InputTopUps(t.inputCredits) + OutputTopUps(t.outputs, outCredits);
            && (forall i :: 0 <= i < k ==> TopUpSum(tus, i) == Uses(p, i, outCredits))
            && (forall tu :: tu in tus ==> tu.position < k && tu.credits > 0)
  {
    OutputIndices(p, k);
    RoutedMeaning(p, k, outCredits);
    TopUpMeaning(p, k, outCredits);
  }

  lemma RoutedMeaning(p: Prog, k: nat, outCredits: seq<nat>)
    requires WellFormed(p, k) && |outCredits| == Arity(p)
    requires forall o :: o in TemplateOf(p, k).outputs && o.Internal? ==> o.index < Issued(p)
    ensures var t := TemplateOf(p, k);
            Routed(t.credits, t.outputs, outCredits) == UsesFrom(p, k, Issued(p), outCredits)
  {
    hide Uses, Routed, WellFormed, Reads, Weight, Issued;
    var t := TemplateOf(p, k);
    forall i | 0 <= i < Issued(p)
      ensures Routed(t.credits, t.outputs, outCredits)[i] == Uses(p, k + i, outCredits)
    {
      RoutedAt(t.credits, Outs(p), k, outCredits, i);
      UsesSplit(p, k + i, outCredits);
    }
  }

  lemma TopUpMeaning(p: Prog, k: nat, outCredits: seq<nat>)
    requires WellFormed(p, k) && |outCredits| == Arity(p)
    ensures var t := TemplateOf(p, k);
            var tus := InputTopUps(t.inputCredits) + OutputTopUps(t.outputs, outCredits);
            && (forall i :: 0 <= i < k ==> TopUpSum(tus, i) == Uses(p, i, outCredits))
            && (forall tu :: tu in tus ==> tu.position < k && tu.credits > 0)
  {
    hide Uses, TopUpSum, InputTopUps, OutputTopUps, WellFormed, Reads, Weight;
    var t := TemplateOf(p, k);
    var tus := InputTopUps(t.inputCredits) + OutputTopUps(t.outputs, outCredits);
    InputTopUpSum(t.inputCredits, 0);
    OutputTopUpSum(Outs(p), k, outCredits, 0);
    forall i | 0 <= i < k ensures TopUpSum(tus, i) == Uses(p, i, outCredits) {
      TopUpSumConcat(InputTopUps(t.inputCredits), OutputTopUps(t.outputs, outCredits), i);
      InputTopUpSum(t.inputCredits, i);
      OutputTopUpSum(Outs(p), k, outCredits, i);
      UsesSplit(p, i, outCredits);
    }
  }
}
