/** The evaluator's reconstruction of the input labels of every finalized instance. */
module VsssProtocol {
  import opened Wrappers
  import opened Bits
  import opened Polynomials
  import opened Interpolation
  import opened VsssShares
  import opened Garbling
  import opened WideGarbling

  /**
   * What the garbler made: for every instance its wide labels and both labels of each input wire,
   * where each position of the wide labels is shared among the instances by one polynomial.
   */
  datatype Setup = Setup(q: nat, mask: Mask, wide: seq<seq<nat>>, wires: seq<seq<GarbledWire>>, secrets: seq<seq<int>>)

  function Column(wide: seq<seq<nat>>, w: nat): (r: seq<Share>)
    requires forall t :: 0 <= t < |wide| ==> w < |wide[t]|
    ensures |r| == |wide|
  {
    seq(|wide|, t requires 0 <= t < |wide| => (t, wide[t][w]))
  }

  /** `n` input bits; every position of the wide labels is a sharing of at most `threshold` values. */
  ghost predicate ValidSetup(s: Setup, n: nat, threshold: nat) {
    && Prime(s.q) && |s.wide| == |s.wires| <= s.q && |s.secrets| == WideCount(n)
    && (forall t :: 0 <= t < |s.wide| ==> |s.wide[t]| == WideCount(n) && |s.wires[t]| == n)
    && (forall w :: 0 <= w < WideCount(n) ==>
          |s.secrets[w]| <= threshold && IsSharing(s.q, s.secrets[w], Column(s.wide, w)))
  }

  /** The position of the selected wide label of chunk `c`. */
  function Position(bits: seq<bool>, c: nat): nat {
    CHUNK_LABELS * c + if CHUNK_BITS * c <= |bits| then BigEndian(Chunk(bits, CHUNK_BITS, c)) else 0
  }

  lemma PositionSelects(wide: seq<nat>, bits: seq<bool>, c: nat)
    requires |wide| == WideCount(|bits|) && c < ChunkCount(|bits|, CHUNK_BITS)
    ensures Position(bits, c) < |wide| && wide[Position(bits, c)] == Selected(wide, bits, c)
  {
    ChunksAligned(wide, bits, c);
    BigEndianBound(Chunk(bits, CHUNK_BITS, c));
  }

  // ----- the steps of the reconstruction

  lemma TableSize(mask: Mask, wide: seq<nat>, wires: seq<GarbledWire>, c: nat)
    requires |wide| == WideCount(|wires|) && c < ChunkCount(|wires|, CHUNK_BITS)
    ensures CHUNK_BITS * c < |wires| && |TableOf(mask, wide, wires, c)| == Pow2(|Chunk(wires, CHUNK_BITS, c)|)
  {
    ChunksAligned(wide, wires, c);
  }

  /** The row numbers of the asserted wide labels, from the tables of the asserted instance. */
  method ValueIndices(mask: Mask, tables: seq<Table>, labels: seq<nat>, ghost wide: seq<nat>,
                      ghost wires: seq<GarbledWire>, ghost bits: seq<bool>)
    returns (indices: seq<nat>)
    requires |wide| == WideCount(|wires|) && |bits| == |wires| && tables == BuildAll(mask, wide, wires)
    requires labels == SelectedLabels(wide, bits)
    requires forall c :: 0 <= c < ChunkCount(|bits|, CHUNK_BITS) ==> NoFalseOpening(mask, wide, wires, bits, c)
    ensures |indices| == |labels|
    ensures forall c :: 0 <= c < |indices| ==>
              CHUNK_BITS * c < |bits| && indices[c] == BigEndian(Chunk(bits, CHUNK_BITS, c))
  {
    hide NoFalseOpening, Lookup, TableOf, Selected, BigEndian, EncodedWires;
    indices := [];
    for c := 0 to |labels|
      invariant |indices| == c
      invariant forall d :: 0 <= d < c ==>
                  CHUNK_BITS * d < |bits| && indices[d] == BigEndian(Chunk(bits, CHUNK_BITS, d))
    {
      ChunkLookup(mask, wide, wires, bits, c);
      TableSize(mask, wide, wires, c);
      var found := LookupTable(mask, tables[c], labels[c], |Chunk(wires, CHUNK_BITS, c)|);
      indices := indices + [found.value.0];
    }
  }

  /** The selected wide labels of an instance whose shares have been opened. */
  method KnownLabels(shares: seq<nat>, indices: seq<nat>, ghost bits: seq<bool>) returns (labels: seq<nat>)
    requires |shares| == WideCount(|bits|) && |indices| == ChunkCount(|bits|, CHUNK_BITS)
    requires forall c :: 0 <= c < |indices| ==>
               CHUNK_BITS * c < |bits| && indices[c] == BigEndian(Chunk(bits, CHUNK_BITS, c))
    ensures labels == SelectedLabels(shares, bits)
  {
    hide BigEndian, Chunk;
    labels := [];
    for c := 0 to |indices|
      invariant |labels| == c && forall d :: 0 <= d < c ==> labels[d] == Selected(shares, bits, d)
    {
      ChunksAligned(shares, bits, c);
      BigEndianBound(Chunk(bits, CHUNK_BITS, c));
      labels := labels + [Chunk(shares, CHUNK_LABELS, c)[indices[c]]];
    }
  }

  /** The labels and bits of one instance from its tables. */
  method OpenTables(mask: Mask, tables: seq<Table>, labels: seq<nat>, ghost wide: seq<nat>,
                    ghost wires: seq<GarbledWire>, ghost bits: seq<bool>)
    returns (r: seq<EvaluatedWire>)
    requires |wide| == WideCount(|wires|) && |bits| == |wires| && tables == BuildAll(mask, wide, wires)
    requires labels == SelectedLabels(wide, bits)
    requires forall c :: 0 <= c < ChunkCount(|bits|, CHUNK_BITS) ==> NoFalseOpening(mask, wide, wires, bits, c)
    ensures r == EncodedWires(wires, bits)
  {
    hide NoFalseOpening, Lookup, TableOf, Selected, BigEndian, EncodedWires;
    r := [];
    EncodedPrefix(wires, bits, 0);
    for c := 0 to |labels|
      invariant CHUNK_BITS * c <= |bits| || c == |labels|
      invariant r == EncodedWires(wires, bits)[..Reach(c, |bits|)]
    {
      ChunkLookup(mask, wide, wires, bits, c);
      TableSize(mask, wide, wires, c);
      var found := LookupTable(mask, tables[c], labels[c], |Chunk(wires, CHUNK_BITS, c)|);
      EncodedChunk(wires, bits, c);
      r := r + found.value.1;
    }
  }

  function Reach(c: nat, n: nat): nat {
    if CHUNK_BITS * c <= n then CHUNK_BITS * c else n
  }

  lemma EncodedPrefix(wires: seq<GarbledWire>, bits: seq<bool>, c: nat)
    requires |wires| == |bits|
    ensures EncodedWires(wires, bits)[..0] == []
  {
  }

  lemma EncodedChunk(wires: seq<GarbledWire>, bits: seq<bool>, c: nat)
    requires |wires| == |bits| && CHUNK_BITS * c < |bits|
    ensures EncodedWires(wires, bits)[..Reach(c + 1, |bits|)] ==
            EncodedWires(wires, bits)[..Reach(c, |bits|)]
            + EncodedWires(Chunk(wires, CHUNK_BITS, c), Chunk(bits, CHUNK_BITS, c))
    ensures ChunkCount(|bits|, CHUNK_BITS) > c + 1 ==> CHUNK_BITS * (c + 1) < |bits|
  {
  }

  // ----- interpolation across instances

  type InstanceLabels = (nat, seq<nat>)

  /** The labels selected by the bits, for distinct instances. */
  ghost predicate AreSelected(s: Setup, bits: seq<bool>, known: seq<InstanceLabels>) {
    && (forall i :: 0 <= i < |known| ==>
          && known[i].0 < |s.wide| && |s.wide[known[i].0]| == WideCount(|bits|)
          && known[i].1 == SelectedLabels(s.wide[known[i].0], bits))
    && (forall i, j :: 0 <= i < j < |known| ==> known[i].0 != known[j].0)
  }

  /** The instances that are not known, in order. */
  method MissingIndices(known: seq<InstanceLabels>, total: nat) returns (missing: seq<nat>)
    requires forall i :: 0 <= i < |known| ==> known[i].0 < total
    requires forall i, j :: 0 <= i < j < |known| ==> known[i].0 != known[j].0
    ensures Complementary(Xs(known), missing) && |known| + |missing| == total
    ensures forall t :: t in missing <==> 0 <= t < total && t !in Xs(known)
  {
    missing := [];
    for t := 0 to total
      invariant forall x :: x in missing <==> 0 <= x < t && x !in Xs(known)
      invariant Distinct(missing)
    {
      assert forall i :: 0 <= i < |missing| ==> missing[i] in missing;
      if forall i :: 0 <= i < |known| ==> known[i].0 != t {
        missing := missing + [t];
      }
    }
    ComplementSize(Xs(known), missing, total);
  }

  lemma ComplementSize(known: seq<int>, missing: seq<int>, total: nat)
    requires Distinct(known) && Distinct(missing) && forall i :: 0 <= i < |known| ==> 0 <= known[i] < total
    requires forall x :: x in missing <==> 0 <= x < total && x !in known
    ensures |known| + |missing| == total && Complementary(known, missing)
  {
    var points := known + missing;
    forall i, j | 0 <= i < j < |points|
      ensures points[i] != points[j]
    {
      if i < |known| <= j {
        assert points[j] in missing;
      }
    }
    forall x
      ensures multiset(points)[x] == multiset(Range(total))[x]
    {
      DistinctCount(points, x);
      DistinctCount(Range(total), x);
      assert x in Range(total) <==> 0 <= x < total by {
        if 0 <= x < total {
          assert Range(total)[x] == x;
        }
      }
    }
    assert multiset(points) == multiset(Range(total));
    assert |points| == |multiset(points)| == |multiset(Range(total))| == total;
  }

  /** The selected label of every known instance at one chunk, as points. */
  function Points(known: seq<InstanceLabels>, c: nat): (r: seq<Share>)
    requires forall i :: 0 <= i < |known| ==> c < |known[i].1|
    ensures |r| == |known| && forall i :: 0 <= i < |known| ==> r[i] == (known[i].0, known[i].1[c])
  {
    seq(|known|, i requires 0 <= i < |known| => (known[i].0, known[i].1[c]))
  }

  /** Interpolation at one chunk gives the labels that the bits select in the missing instances. */
  lemma ChunkInterpolates(s: Setup, bits: seq<bool>, threshold: nat, known: seq<InstanceLabels>, missing: seq<nat>,
                          c: nat, values: seq<nat>)
    requires ValidSetup(s, |bits|, threshold) && AreSelected(s, bits, known) && threshold <= |known|
    requires c < ChunkCount(|bits|, CHUNK_BITS) && Complementary(Xs(known), missing) && |known| + |missing| == |s.wide|
    requires forall i :: 0 <= i < |known| ==> c < |known[i].1|
    requires Interpolates(s.q, Points(known, c), missing, values)
    ensures |values| == |missing|
    ensures forall j :: 0 <= j < |missing| ==>
              && missing[j] < |s.wide| && |s.wide[missing[j]]| == WideCount(|bits|)
              && values[j] == SelectedLabels(s.wide[missing[j]], bits)[c]
  {
    ComplementElements(Xs(known), missing);
    var w := Position(bits, c);
    assert |known| > 0 || |missing| > 0 || |s.wide| == 0;
    forall t | 0 <= t < |s.wide|
      ensures w < |s.wide[t]| && s.wide[t][w] == SelectedLabels(s.wide[t], bits)[c]
    {
      PositionSelects(s.wide[t], bits, c);
    }
    if |s.wide| > 0 {
      assert w < |s.wide[0]|;
      var shares := Column(s.wide, w);
      assert Xs(Points(known, c)) == Xs(known);
      hide Complementary, Interpolates, Prime, IsSharing, Selected, Position;
      forall i | 0 <= i < |known|
        ensures Points(known, c)[i] in shares
      {
        assert shares[known[i].0] == Points(known, c)[i];
      }
      AnySharesRecover(s.q, s.secrets[w], shares, Points(known, c), missing, values);
      InterpolatesLength(s.q, Points(known, c), missing, values);
    } else {
      InterpolatesLength(s.q, Points(known, c), missing, values);
    }
  }

  lemma InterpolatesLength(q: nat, known: seq<Share>, missing: seq<nat>, values: seq<nat>)
    requires q > 0 && Interpolates(q, known, missing, values)
    ensures |values| == |missing|
  {
  }

  // ----- the whole reconstruction

  type Lookups = seq<(nat, seq<Table>)>

  /** The tables that the evaluator holds belong to the instances they are filed under. */
  ghost predicate AreTables(s: Setup, n: nat, lookups: Lookups) {
    forall i :: 0 <= i < |lookups| ==>
      var t := lookups[i].0;
      t < |s.wide| == |s.wires| && |s.wide[t]| == WideCount(n) && |s.wires[t]| == n
      && lookups[i].1 == BuildAll(s.mask, s.wide[t], s.wires[t])
  }

  predicate Filed(lookups: Lookups, t: nat) {
    exists i :: 0 <= i < |lookups| && lookups[i].0 == t
  }

  method FindTables(lookups: Lookups, t: nat) returns (tables: seq<Table>)
    requires Filed(lookups, t)
    ensures exists i :: 0 <= i < |lookups| && lookups[i] == (t, tables)
  {
    var i := 0;
    while lookups[i].0 != t
      invariant i < |lookups| && exists j :: i <= j < |lookups| && lookups[j].0 == t
      decreases |lookups| - i
    {
      i := i + 1;
    }
    tables := lookups[i].1;
  }

  /** With the right wide labels, no table of instance `t` opens at a wrong row. */
  ghost predicate OpensRightly(s: Setup, bits: seq<bool>, t: nat) {
    && t < |s.wide| == |s.wires| && |s.wide[t]| == WideCount(|bits|) && |s.wires[t]| == |bits|
    && forall c :: 0 <= c < ChunkCount(|bits|, CHUNK_BITS) ==> NoFalseOpening(s.mask, s.wide[t], s.wires[t], bits, c)
  }

  predicate IsOpened(openings: seq<InstanceLabels>, t: nat) {
    exists i :: 0 <= i < |openings| && openings[i].0 == t
  }

  predicate IsReconstructed(r: seq<(nat, seq<EvaluatedWire>)>, t: nat) {
    exists j :: 0 <= j < |r| && r[j].0 == t
  }

  /** The opened instances with their shares, which are their wide labels. */
  ghost predicate AreOpened(s: Setup, n: nat, assertIndex: nat, openings: seq<InstanceLabels>) {
    && (forall i :: 0 <= i < |openings| ==>
          openings[i].0 < |s.wide| && openings[i].0 != assertIndex && openings[i].1 == s.wide[openings[i].0])
    && (forall i, j :: 0 <= i < j < |openings| ==> openings[i].0 != openings[j].0)
  }

  /** The labels known for each instance: by the opened shares, and as asserted. */
  method AllKnown(q: nat, openings: seq<InstanceLabels>, indices: seq<nat>, assertIndex: nat, wideLabels: seq<nat>,
                  ghost s: Setup, ghost bits: seq<bool>, ghost threshold: nat) returns (known: seq<InstanceLabels>)
    requires ValidSetup(s, |bits|, threshold) && assertIndex < |s.wide| && AreOpened(s, |bits|, assertIndex, openings)
    requires wideLabels == SelectedLabels(s.wide[assertIndex], bits) && |indices| == ChunkCount(|bits|, CHUNK_BITS)
    requires forall c :: 0 <= c < |indices| ==>
               CHUNK_BITS * c < |bits| && indices[c] == BigEndian(Chunk(bits, CHUNK_BITS, c))
    ensures |known| == |openings| + 1 && AreSelected(s, bits, known) && known[|openings|].0 == assertIndex
    ensures forall i :: 0 <= i < |openings| ==> known[i].0 == openings[i].0
  {
    hide Prime, IsSharing, BigEndian, Chunk, Selected;
    known := [];
    for i := 0 to |openings|
      invariant |known| == i
      invariant forall j :: 0 <= j < i ==> known[j] == (openings[j].0, SelectedLabels(s.wide[openings[j].0], bits))
    {
      var labels := KnownLabels(openings[i].1, indices, bits);
      known := known + [(openings[i].0, labels)];
    }
    known := known + [(assertIndex, wideLabels)];
  }

  /** The missing labels, chunk by chunk and then by instance. */
  method MissingLabels(q: nat, known: seq<InstanceLabels>, missing: seq<nat>, ghost s: Setup, ghost bits: seq<bool>,
                       ghost threshold: nat)
    returns (labels: seq<seq<nat>>)
    requires q == s.q && ValidSetup(s, |bits|, threshold) && AreSelected(s, bits, known) && threshold <= |known|
    requires |bits| > 0 && |known| > 0 && Complementary(Xs(known), missing) && |known| + |missing| == |s.wide|
    ensures |labels| == |missing|
    ensures forall j :: 0 <= j < |labels| ==>
              && missing[j] < |s.wide| && |s.wide[missing[j]]| == WideCount(|bits|)
              && labels[j] == SelectedLabels(s.wide[missing[j]], bits)
  {
    hide Prime, IsSharing, Complementary, Interpolates, Selected;
    var numLabels := |known[0].1|;
    var interpolated: seq<seq<nat>> := [];
    for c := 0 to numLabels
      invariant |interpolated| == c
      invariant forall d, j :: 0 <= d < c && 0 <= j < |missing| ==>
                  |interpolated[d]| == |missing| && missing[j] < |s.wide| && |s.wide[missing[j]]| == WideCount(|bits|)
                  && interpolated[d][j] == SelectedLabels(s.wide[missing[j]], bits)[d]
      invariant forall d :: 0 <= d < c ==> |interpolated[d]| == |missing|
    {
      assert Xs(Points(known, c)) == Xs(known);
      var values := LagrangeInterpolateWholePolynomial(q, Points(known, c), missing);
      ChunkInterpolates(s, bits, threshold, known, missing, c, values);
      interpolated := interpolated + [values];
    }
    assert |interpolated[0]| == |missing|;
    labels := [];
    for j := 0 to |missing|
      invariant |labels| == j
      invariant forall i :: 0 <= i < j ==>
                  && missing[i] < |s.wide| && |s.wide[missing[i]]| == WideCount(|bits|)
                  && labels[i] == SelectedLabels(s.wide[missing[i]], bits)
    {
      var row := seq(|interpolated|, c requires 0 <= c < |interpolated| => interpolated[c][j]);
      assert interpolated[0][j] == SelectedLabels(s.wide[missing[j]], bits)[0];
      labels := labels + [row];
    }
  }

  /** Opens the tables of each finalized instance with its labels. */
  method OpenAll(mask: Mask, lookups: Lookups, instances: seq<nat>, labels: seq<seq<nat>>, ghost s: Setup,
                 ghost bits: seq<bool>)
    returns (r: seq<(nat, seq<EvaluatedWire>)>)
    requires mask == s.mask && |instances| == |labels| && AreTables(s, |bits|, lookups)
    requires forall j :: 0 <= j < |instances| ==> Filed(lookups, instances[j]) && OpensRightly(s, bits, instances[j])
    requires forall j :: 0 <= j < |instances| ==>
               && instances[j] < |s.wide| && |s.wide[instances[j]]| == WideCount(|bits|)
               && labels[j] == SelectedLabels(s.wide[instances[j]], bits)
    ensures |r| == |instances|
    ensures forall j :: 0 <= j < |r| ==>
              && r[j].0 == instances[j] < |s.wires| && |s.wires[r[j].0]| == |bits|
              && r[j].1 == EncodedWires(s.wires[r[j].0], bits)
  {
    hide AreTables, NoFalseOpening, EncodedWires, BuildAll;
    r := [];
    for j := 0 to |instances|
      invariant |r| == j
      invariant forall i :: 0 <= i < j ==>
                  && r[i].0 == instances[i] < |s.wires| && |s.wires[r[i].0]| == |bits|
                  && r[i].1 == EncodedWires(s.wires[r[i].0], bits)
    {
      var t := instances[j];
      var tables := FindTables(lookups, t);
      TablesFor(s, bits, lookups, t, tables);
      var wires := OpenTables(mask, tables, labels[j], s.wide[t], s.wires[t], bits);
      r := r + [(t, wires)];
    }
  }

  /**
   * From the asserted wide labels of one finalized instance and the shares of the opened instances:
   * for every finalized instance exactly the labels and bits that the garbler encoded.
   */
  method EvaluatedWires(q: nat, mask: Mask, assertIndex: nat, wideLabels: seq<nat>, lookups: Lookups,
                        openings: seq<InstanceLabels>, total: nat, ghost s: Setup, ghost bits: seq<bool>)
    returns (r: seq<(nat, seq<EvaluatedWire>)>)
    requires q == s.q && mask == s.mask && total == |s.wide| && assertIndex < total && |bits| > 0
    requires ValidSetup(s, |bits|, |openings| + 1) && AreOpened(s, |bits|, assertIndex, openings)
    requires AreTables(s, |bits|, lookups)
    requires wideLabels == SelectedLabels(s.wide[assertIndex], bits)
    requires forall t :: 0 <= t < total && !IsOpened(openings, t) ==> Filed(lookups, t) && OpensRightly(s, bits, t)
    ensures 0 < |r| == total - |openings| && r[|r| - 1].0 == assertIndex
    ensures forall j :: 0 <= j < |r| ==>
              r[j].0 < |s.wires| && |s.wires[r[j].0]| == |bits| && r[j].1 == EncodedWires(s.wires[r[j].0], bits)
    ensures forall t :: 0 <= t < total ==> (IsReconstructed(r, t) <==> !IsOpened(openings, t))
  {
    NotOpenedAsserted(openings, assertIndex);
    var asserted := FindTables(lookups, assertIndex);
    TablesFor(s, bits, lookups, assertIndex, asserted);
    var indices := ValueIndices(mask, asserted, wideLabels, s.wide[assertIndex], s.wires[assertIndex], bits);
    var known := AllKnown(q, openings, indices, assertIndex, wideLabels, s, bits, |openings| + 1);
    var missing := MissingIndices(known, total);
    ComplementElements(Xs(known), missing);
    var labels := MissingLabels(q, known, missing, s, bits, |openings| + 1);
    hide ValidSetup, AreSelected, Complementary, AreTables, BigEndian;
    hide NoFalseOpening, OpensRightly, EncodedWires, IsOpened;
    SetupWires(s, |bits|, |openings| + 1);
    forall j | 0 <= j < |missing| + 1
      ensures !IsOpened(openings, (missing + [assertIndex])[j]) && (missing + [assertIndex])[j] < total
    {
      NotOpened(known, openings, assertIndex, missing, total, (missing + [assertIndex])[j]);
    }
    r := OpenAll(mask, lookups, missing + [assertIndex], labels + [wideLabels], s, bits);
    Covered(known, openings, assertIndex, missing, total, r);
  }

  lemma NotOpenedAsserted(openings: seq<InstanceLabels>, assertIndex: nat)
    requires forall i :: 0 <= i < |openings| ==> openings[i].0 != assertIndex
    ensures !IsOpened(openings, assertIndex)
  {
  }

  /** The tables found for an instance are its own, and open rightly. */
  lemma TablesFor(s: Setup, bits: seq<bool>, lookups: Lookups, t: nat, tables: seq<Table>)
    requires AreTables(s, |bits|, lookups) && OpensRightly(s, bits, t)
    requires exists i :: 0 <= i < |lookups| && lookups[i] == (t, tables)
    ensures t < |s.wide| == |s.wires| && |s.wide[t]| == WideCount(|bits|) && |s.wires[t]| == |bits|
    ensures tables == BuildAll(s.mask, s.wide[t], s.wires[t])
    ensures forall c :: 0 <= c < ChunkCount(|bits|, CHUNK_BITS) ==>
              NoFalseOpening(s.mask, s.wide[t], s.wires[t], bits, c)
  {
    hide NoFalseOpening, BuildAll;
    var i :| 0 <= i < |lookups| && lookups[i] == (t, tables);
    assert lookups[i].0 == t;
  }

  lemma SetupWires(s: Setup, n: nat, threshold: nat)
    requires ValidSetup(s, n, threshold)
    ensures |s.wide| == |s.wires| && forall t :: 0 <= t < |s.wires| ==> |s.wires[t]| == n && |s.wide[t]| == WideCount(n)
  {
  }

  lemma NotOpened(known: seq<InstanceLabels>, openings: seq<InstanceLabels>, assertIndex: nat, missing: seq<nat>,
                  total: nat, t: nat)
    requires |known| == |openings| + 1 && known[|openings|].0 == assertIndex
    requires forall i :: 0 <= i < |openings| ==> known[i].0 == openings[i].0
    requires forall i :: 0 <= i < |openings| ==> openings[i].0 != assertIndex
    requires forall x :: x in missing <==> 0 <= x < total && x !in Xs(known)
    requires t in missing + [assertIndex] && assertIndex < total
    ensures t < total && !IsOpened(openings, t)
  {
    assert t == assertIndex || t in missing;
    forall i | 0 <= i < |openings|
      ensures openings[i].0 != t
    {
      assert Xs(known)[i] == openings[i].0;
    }
  }

  lemma Covered(known: seq<InstanceLabels>, openings: seq<InstanceLabels>, assertIndex: nat, missing: seq<nat>,
                total: nat, r: seq<(nat, seq<EvaluatedWire>)>)
    requires |known| == |openings| + 1 && known[|openings|].0 == assertIndex
    requires forall i :: 0 <= i < |openings| ==> known[i].0 == openings[i].0
    requires forall i :: 0 <= i < |openings| ==> openings[i].0 != assertIndex
    requires forall x :: x in missing <==> 0 <= x < total && x !in Xs(known)
    requires assertIndex < total && |r| == |missing| + 1
    requires forall i :: 0 <= i < |r| ==> r[i].0 == (missing + [assertIndex])[i]
    ensures forall t :: 0 <= t < total ==> (IsReconstructed(r, t) <==> !IsOpened(openings, t))
  {
    forall t | 0 <= t < total
      ensures IsReconstructed(r, t) <==> !IsOpened(openings, t)
    {
      assert r[|missing|].0 == assertIndex;
      assert forall j :: 0 <= j < |missing| ==> r[j].0 == missing[j];
      if IsReconstructed(r, t) {
        var j :| 0 <= j < |r| && r[j].0 == t;
        assert t == (missing + [assertIndex])[j];
        NotOpened(known, openings, assertIndex, missing, total, t);
      } else {
        assert t !in missing && t != assertIndex;
        assert t in Xs(known);
        var i :| 0 <= i < |known| && known[i].0 == t;
        assert openings[i].0 == t;
      }
    }
  }

  /**
   * When the two labels of every wire differ by the garbler's delta, the reconstructed wires are
   * the active inputs that the evaluation of the garbled circuit starts from.
   */
  lemma ReconstructedAreActive(wires: seq<GarbledWire>, bits: seq<bool>, delta: Label)
    requires |wires| == |bits| && forall i :: 0 <= i < |wires| ==> wires[i].label1 == Mix(wires[i].label0, delta)
    ensures EncodedWires(wires, bits) ==
            ActiveInputs(seq<Label>(|wires|, i requires 0 <= i < |wires| => wires[i].label0), bits, delta)
  {
    hide Mix;
  }
}
