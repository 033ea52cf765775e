/**
 * Tables that open the labels of up to eight input bits with one wide label. Byte strings are
 * written as bit strings here.
 */
module WideGarbling {
  import opened Wrappers
  import opened Bits
  import opened Garbling

  const TAG_BITS: nat := 128
  const CHUNK_LABELS: nat := 256
  const CHUNK_BITS: nat := 8

  /** Both labels of an input wire. */
  datatype GarbledWire = GarbledWire(label0: Label, label1: Label)

  /** The extendable-output hash of a wide label: any bit of its output stream. */
  type Mask = nat -> (nat -> bool)

  type Row = seq<bool>
  type Table = seq<Row>

  /** The j-th of k bits of an index, most significant first. */
  function IndexBit(index: nat, k: nat, j: nat): bool
    requires j < k
  {
    index / Pow2(k - j - 1) % 2 == 1
  }

  function Chosen(wire: GarbledWire, bit: bool): Label {
    if bit then wire.label1 else wire.label0
  }

  /** The labels that the bits of an index choose, one after the other, and a tag of zeros. */
  function PlainRow(wires: seq<GarbledWire>, index: nat, k: nat): (r: Row)
    requires |wires| <= k
    ensures |r| == LABEL_BITS * |wires| + TAG_BITS
    decreases |wires|
  {
    if |wires| == 0 then Zeros(TAG_BITS)
    else
      Chosen(wires[0], IndexBit(index, k, k - |wires|)) + PlainRow(wires[1..], index, k)
  }

  function Masked(mask: nat -> bool, row: Row): (r: Row)
    ensures |r| == |row|
  {
    seq(|row|, i requires 0 <= i < |row| => row[i] != mask(i))
  }

  /** One row for each wide label; the row number selects the labels it opens. */
  function NewTable(mask: Mask, wideLabels: seq<nat>, wires: seq<GarbledWire>): (t: Table)
    ensures |t| == |wideLabels|
  {
    seq(|wideLabels|, i requires 0 <= i < |wideLabels| => Masked(mask(wideLabels[i]), PlainRow(wires, i, |wires|)))
  }

  // ----- lookup

  predicate Opens(mask: Mask, row: Row, key: nat)
    requires |row| >= TAG_BITS
  {
    forall i :: |row| - TAG_BITS <= i < |row| ==> !Masked(mask(key), row)[i]
  }

  /** The labels in an opened row, with the bits of the row number. */
  function DecodeRow(plain: Row, index: nat, k: nat): (r: seq<EvaluatedWire>)
    requires |plain| == LABEL_BITS * k + TAG_BITS
    ensures |r| == k
  {
    seq<EvaluatedWire>(k, j requires 0 <= j < k =>
      EvaluatedWire(plain[LABEL_BITS * j..LABEL_BITS * (j + 1)], IndexBit(index, k, j)))
  }

  predicate Rows(t: Table, k: nat) {
    forall r :: 0 <= r < |t| ==> |t[r]| == LABEL_BITS * k + TAG_BITS
  }

  /** The first row that opens; without one the source aborts. */
  function Lookup(mask: Mask, t: Table, key: nat, k: nat, from: nat): Option<(nat, seq<EvaluatedWire>)>
    requires Rows(t, k) && from <= |t|
    decreases |t| - from
  {
    if from == |t| then None
    else if Opens(mask, t[from], key) then Some((from, DecodeRow(Masked(mask(key), t[from]), from, k)))
    else Lookup(mask, t, key, k, from + 1)
  }

  // ----- what a lookup finds

  /** The evaluated wires of an assignment of bits. */
  function EncodedWires(wires: seq<GarbledWire>, bits: seq<bool>): (r: seq<EvaluatedWire>)
    requires |wires| == |bits|
    ensures |r| == |bits|
  {
    seq<EvaluatedWire>(|bits|, j requires 0 <= j < |bits| => EvaluatedWire(Chosen(wires[j], bits[j]), bits[j]))
  }

  function IndexBits(index: nat, k: nat): (r: seq<bool>)
    ensures |r| == k && forall j :: 0 <= j < k ==> r[j] == IndexBit(index, k, j)
  {
    seq(k, j requires 0 <= j < k => IndexBit(index, k, j))
  }

  lemma {:induction false} PlainRowParts(wires: seq<GarbledWire>, index: nat, k: nat, j: nat)
    requires |wires| <= k && j < |wires|
    ensures PlainRow(wires, index, k)[LABEL_BITS * j..LABEL_BITS * (j + 1)]
         == Chosen(wires[j], IndexBit(index, k, k - |wires| + j))
    decreases |wires|
  {
    var head: seq<bool> := Chosen(wires[0], IndexBit(index, k, k - |wires|));
    var tail: seq<bool> := PlainRow(wires[1..], index, k);
    assert PlainRow(wires, index, k) == head + tail;
    hide PlainRow, IndexBit, Chosen;
    if j == 0 {
      assert (head + tail)[0..LABEL_BITS] == head;
    } else {
      PlainRowParts(wires[1..], index, k, j - 1);
      ShiftSlice(head, tail, LABEL_BITS * (j - 1), LABEL_BITS * j);
    }
  }

  lemma ShiftSlice(a: seq<bool>, b: seq<bool>, lo: nat, hi: nat)
    requires lo <= hi <= |b|
    ensures (a + b)[|a| + lo..|a| + hi] == b[lo..hi]
  {
  }

  lemma {:induction false} PlainRowTag(wires: seq<GarbledWire>, index: nat, k: nat, i: nat)
    requires |wires| <= k && LABEL_BITS * |wires| <= i < LABEL_BITS * |wires| + TAG_BITS
    ensures !PlainRow(wires, index, k)[i]
    decreases |wires|
  {
    if |wires| > 0 {
      PlainRowTag(wires[1..], index, k, i - LABEL_BITS);
    }
  }

  lemma MaskedTwice(mask: nat -> bool, row: Row)
    ensures Masked(mask, Masked(mask, row)) == row
  {
  }

  /** The row built for a wide label opens with it, and holds the labels of its number's bits. */
  lemma OwnRowOpens(mask: Mask, wideLabels: seq<nat>, wires: seq<GarbledWire>, i: nat)
    requires i < |wideLabels|
    ensures Rows(NewTable(mask, wideLabels, wires), |wires|)
    ensures var row := NewTable(mask, wideLabels, wires)[i];
            && Opens(mask, row, wideLabels[i])
            && DecodeRow(Masked(mask(wideLabels[i]), row), i, |wires|) == EncodedWires(wires, IndexBits(i, |wires|))
  {
    var k := |wires|;
    var plain := PlainRow(wires, i, k);
    MaskedTwice(mask(wideLabels[i]), plain);
    hide PlainRow, IndexBit, Masked;
    forall b | LABEL_BITS * k <= b < LABEL_BITS * k + TAG_BITS
      ensures !plain[b]
    {
      PlainRowTag(wires, i, k, b);
    }
    forall j | 0 <= j < k
      ensures plain[LABEL_BITS * j..LABEL_BITS * (j + 1)] == Chosen(wires[j], IndexBit(i, k, j))
    {
      PlainRowParts(wires, i, k, j);
    }
  }

  // ----- which rows open

  /** Two wide labels have masks that agree on the tag of a row of `k` labels. */
  predicate SameTag(mask: Mask, key: nat, key': nat, k: nat) {
    forall b :: LABEL_BITS * k <= b < LABEL_BITS * k + TAG_BITS ==> mask(key)(b) == mask(key')(b)
  }

  /**
   * Row r opens with a wide label exactly if the masks of that label and of the row's own agree on
   * all bits of the tag.
   */
  lemma OpensIff(mask: Mask, wideLabels: seq<nat>, wires: seq<GarbledWire>, r: nat, key: nat)
    requires r < |wideLabels|
    ensures Opens(mask, NewTable(mask, wideLabels, wires)[r], key) <==> SameTag(mask, wideLabels[r], key, |wires|)
  {
    var k, own := |wires|, mask(wideLabels[r]);
    var plain, row := PlainRow(wires, r, k), NewTable(mask, wideLabels, wires)[r];
    hide PlainRow;
    forall b | LABEL_BITS * k <= b < LABEL_BITS * k + TAG_BITS
      ensures Masked(mask(key), row)[b] == (own(b) != mask(key)(b))
    {
      PlainRowTag(wires, r, k, b);
    }
  }

  /** No earlier row has a wide label whose mask agrees with that of row `i` on the tag. */
  ghost predicate NoEarlierOpens(mask: Mask, wideLabels: seq<nat>, k: nat, i: nat)
    requires i < |wideLabels|
  {
    forall r :: 0 <= r < i ==> !SameTag(mask, wideLabels[r], wideLabels[i], k)
  }

  lemma {:induction false} LookupFinds(mask: Mask, t: Table, key: nat, k: nat, from: nat, i: nat)
    requires Rows(t, k) && from <= i < |t| && Opens(mask, t[i], key)
    ensures Lookup(mask, t, key, k, from).Some? && from <= Lookup(mask, t, key, k, from).value.0 <= i
    ensures Lookup(mask, t, key, k, from).value.0 == i <==> forall r :: from <= r < i ==> !Opens(mask, t[r], key)
    ensures Lookup(mask, t, key, k, from).value.0 == i ==>
              Lookup(mask, t, key, k, from).value.1 == DecodeRow(Masked(mask(key), t[i]), i, k)
    decreases |t| - from
  {
    hide Opens, DecodeRow;
    if from < i && !Opens(mask, t[from], key) {
      LookupFinds(mask, t, key, k, from + 1, i);
    }
  }

  /**
   * Looking up the wide label of row `i` finds that row and the labels of its bits, exactly if no
   * earlier row has a wide label whose mask agrees on all bits of the tag.
   */
  lemma LookupExact(mask: Mask, wideLabels: seq<nat>, wires: seq<GarbledWire>, i: nat)
    requires i < |wideLabels|
    ensures var t := NewTable(mask, wideLabels, wires);
            && Rows(t, |wires|)
            && (Lookup(mask, t, wideLabels[i], |wires|, 0) == Some((i, EncodedWires(wires, IndexBits(i, |wires|))))
                <==> NoEarlierOpens(mask, wideLabels, |wires|, i))
  {
    hide NewTable, Opens, SameTag, DecodeRow, EncodedWires, IndexBits, Lookup;
    OwnRowOpens(mask, wideLabels, wires, i);
    var t := NewTable(mask, wideLabels, wires);
    LookupFinds(mask, t, wideLabels[i], |wires|, 0, i);
    forall r | 0 <= r < i
      ensures Opens(mask, t[r], wideLabels[i]) <==> SameTag(mask, wideLabels[r], wideLabels[i], |wires|)
    {
      OpensIff(mask, wideLabels, wires, r, wideLabels[i]);
    }
  }

  // ----- bits and row numbers

  /** The number of some bits, most significant first. */
  function BigEndian(bits: seq<bool>): nat {
    if |bits| == 0 then 0 else 2 * BigEndian(bits[..|bits| - 1]) + Bit(bits[|bits| - 1])
  }

  lemma {:induction false} BigEndianBound(bits: seq<bool>)
    ensures BigEndian(bits) < Pow2(|bits|)
  {
    if |bits| > 0 {
      BigEndianBound(bits[..|bits| - 1]);
    }
  }

  lemma {:induction false} BigEndianBit(bits: seq<bool>, j: nat)
    requires j < |bits|
    ensures IndexBit(BigEndian(bits), |bits|, j) == bits[j]
  {
    var n := |bits| - 1;
    assert BigEndian(bits) / 2 == BigEndian(bits[..n]) && BigEndian(bits) % 2 == Bit(bits[n]);
    hide BigEndian, IndexBit;
    if j < n {
      BigEndianBit(bits[..n], j);
      IndexBitHalved(BigEndian(bits), |bits|, j);
    } else {
      IndexBitLast(BigEndian(bits), |bits|);
    }
  }

  lemma IndexBitHalved(x: nat, k: nat, j: nat)
    requires j + 1 < k
    ensures IndexBit(x, k, j) == IndexBit(x / 2, k - 1, j)
  {
    HalveIndex(x, Pow2(k - j - 2));
    assert Pow2(k - j - 1) == 2 * Pow2(k - j - 2);
  }

  lemma IndexBitLast(x: nat, k: nat)
    requires k > 0
    ensures IndexBit(x, k, k - 1) <==> x % 2 == 1
  {
    assert Pow2(0) == 1;
  }

  lemma HalveIndex(x: nat, m: nat)
    requires m > 0
    ensures x / (2 * m) == x / 2 / m
  {
    var q, r := x / 2 / m, x / 2 % m;
    assert x / 2 == m * q + r && x == 2 * (m * q + r) + x % 2;
    assert 2 * (m * q) == (2 * m) * q;
    DivModUnique(x, 2 * m, q, 2 * r + x % 2);
  }

  /** The bits of the number of some bits are these. */
  lemma IndexBitsInverse(bits: seq<bool>)
    ensures IndexBits(BigEndian(bits), |bits|) == bits
  {
    hide IndexBit, BigEndian;
    forall j | 0 <= j < |bits|
      ensures IndexBit(BigEndian(bits), |bits|, j) == bits[j]
    {
      BigEndianBit(bits, j);
    }
  }

  function Backwards(bits: seq<bool>): (r: seq<bool>)
    ensures |r| == |bits| && forall j :: 0 <= j < |bits| ==> r[j] == bits[|bits| - 1 - j]
  {
    seq(|bits|, j requires 0 <= j < |bits| => bits[|bits| - 1 - j])
  }

  /** The number of some bits is that of the bits read from the other end, least significant first. */
  lemma {:induction false} BigEndianNum(bits: seq<bool>)
    ensures BigEndian(bits) == Num(Backwards(bits))
  {
    if |bits| > 0 {
      var n := |bits| - 1;
      BigEndianNum(bits[..n]);
      assert Backwards(bits) == [bits[n]] + Backwards(bits[..n]);
      NumCons(bits[n], Backwards(bits[..n]));
    } else {
      NumZeros(Backwards(bits));
    }
  }

  lemma RowIsMasked(mask: Mask, wideLabels: seq<nat>, wires: seq<GarbledWire>, i: nat, b: nat)
    requires i < |wideLabels| && b < LABEL_BITS * |wires| + TAG_BITS
    ensures |NewTable(mask, wideLabels, wires)[i]| == LABEL_BITS * |wires| + TAG_BITS
    ensures Bit(NewTable(mask, wideLabels, wires)[i][b])
         == (Bit(PlainRow(wires, i, |wires|)[b]) + Bit(mask(wideLabels[i])(b))) % 2
  {
    hide PlainRow;
  }

  /**
   * The row for some input bits: label after label, for each the one that the input bit selects, all
   * added bit by bit to the mask of the row's wide label.
   */
  lemma RowLabelBit(mask: Mask, wideLabels: seq<nat>, wires: seq<GarbledWire>, bits: seq<bool>, j: nat, b: nat)
    requires |bits| == |wires| && BigEndian(bits) < |wideLabels| && j < |wires| && b < LABEL_BITS
    ensures var i, n := BigEndian(bits), LABEL_BITS * j + b;
            var row, l := NewTable(mask, wideLabels, wires)[i], if bits[j] then wires[j].label1 else wires[j].label0;
            n < |row| && Bit(row[n]) == (Bit(l[b]) + Bit(mask(wideLabels[i])(n))) % 2
  {
    var i, k, n := BigEndian(bits), |wires|, LABEL_BITS * j + b;
    PlainRowParts(wires, i, k, j);
    BigEndianBit(bits, j);
    hide PlainRow, IndexBit, BigEndian, NewTable;
    assert PlainRow(wires, i, k)[n] == PlainRow(wires, i, k)[LABEL_BITS * j..LABEL_BITS * (j + 1)][b];
    RowIsMasked(mask, wideLabels, wires, i, n);
  }

  /** After the labels the row is its mask: the tag is zeros. */
  lemma RowTagBit(mask: Mask, wideLabels: seq<nat>, wires: seq<GarbledWire>, i: nat, b: nat)
    requires i < |wideLabels| && b < TAG_BITS
    ensures var row, n := NewTable(mask, wideLabels, wires)[i], LABEL_BITS * |wires| + b;
            n < |row| && row[n] == mask(wideLabels[i])(n)
  {
    PlainRowTag(wires, i, |wires|, LABEL_BITS * |wires| + b);
    hide PlainRow, NewTable;
    RowIsMasked(mask, wideLabels, wires, i, LABEL_BITS * |wires| + b);
  }

  /** A table for eight wires has 256 rows of nine times sixteen bytes. */
  lemma FullTable(mask: Mask, wideLabels: seq<nat>, wires: seq<GarbledWire>)
    requires |wires| == CHUNK_BITS && |wideLabels| == CHUNK_LABELS
    ensures |NewTable(mask, wideLabels, wires)| == Pow2(8) == 256
    ensures forall r :: 0 <= r < 256 ==> |NewTable(mask, wideLabels, wires)[r]| == 8 * (9 * 16)
  {
    Pow2Values();
  }

  // ----- chunks

  function ChunkCount(n: nat, size: nat): nat
    requires size > 0
  {
    (n + size - 1) / size
  }

  /** Chunk `c` of a sequence; the last one may be short. */
  function Chunk<T>(s: seq<T>, size: nat, c: nat): (r: seq<T>)
    requires size * c <= |s|
    ensures |r| == if size * c + size <= |s| then size else |s| - size * c
  {
    if size * c + size <= |s| then s[size * c..size * c + size] else s[size * c..]
  }

  /** How many wide labels n bits need. */
  function WideCount(n: nat): nat {
    CHUNK_LABELS * (n / CHUNK_BITS) + if n % CHUNK_BITS == 0 then 0 else Pow2(n % CHUNK_BITS)
  }

  /** The chunks of wide labels and of bits are aligned, with a short last chunk of both. */
  lemma ChunksAligned<S, T>(labels: seq<S>, bits: seq<T>, c: nat)
    requires |labels| == WideCount(|bits|) && c < ChunkCount(|bits|, CHUNK_BITS)
    ensures ChunkCount(|labels|, CHUNK_LABELS) == ChunkCount(|bits|, CHUNK_BITS)
    ensures CHUNK_BITS * c < |bits| && CHUNK_LABELS * c < |labels|
    ensures |Chunk(labels, CHUNK_LABELS, c)| == Pow2(|Chunk(bits, CHUNK_BITS, c)|)
    ensures 0 < |Chunk(bits, CHUNK_BITS, c)|
  {
    var n := |bits|;
    if n % CHUNK_BITS != 0 {
      Pow2Monotone(n % CHUNK_BITS, 7);
    }
    Pow2Values();
    ChunkNumber(|labels|, n / CHUNK_BITS, if n % CHUNK_BITS == 0 then 0 else Pow2(n % CHUNK_BITS));
  }

  lemma Pow2Values()
    ensures Pow2(7) == 128 && Pow2(8) == 256
  {
    assert Pow2(4) == 16;
  }

  lemma ChunkNumber(n: nat, d: nat, r: nat)
    requires n == CHUNK_LABELS * d + r && r < CHUNK_LABELS
    ensures ChunkCount(n, CHUNK_LABELS) == d + if r == 0 then 0 else 1
  {
  }

  /** The tables of one instance, one for each chunk. */
  function BuildAll(mask: Mask, wideLabels: seq<nat>, wires: seq<GarbledWire>): (r: seq<Table>)
    requires |wideLabels| == WideCount(|wires|)
    ensures |r| == ChunkCount(|wires|, CHUNK_BITS)
  {
    seq(ChunkCount(|wires|, CHUNK_BITS), c requires 0 <= c < ChunkCount(|wires|, CHUNK_BITS) =>
      TableOf(mask, wideLabels, wires, c))
  }

  function TableOf(mask: Mask, wideLabels: seq<nat>, wires: seq<GarbledWire>, c: nat): Table
    requires |wideLabels| == WideCount(|wires|) && c < ChunkCount(|wires|, CHUNK_BITS)
  {
    ChunksAligned(wideLabels, wires, c);
    NewTable(mask, Chunk(wideLabels, CHUNK_LABELS, c), Chunk(wires, CHUNK_BITS, c))
  }

  /** The wide label that a chunk's bits select. */
  function Selected(wideLabels: seq<nat>, bits: seq<bool>, c: nat): nat
    requires |wideLabels| == WideCount(|bits|) && c < ChunkCount(|bits|, CHUNK_BITS)
  {
    ChunksAligned(wideLabels, bits, c);
    BigEndianBound(Chunk(bits, CHUNK_BITS, c));
    Chunk(wideLabels, CHUNK_LABELS, c)[BigEndian(Chunk(bits, CHUNK_BITS, c))]
  }

  /** The wide labels that go with the bits, as the garbler signs them. */
  function SelectedLabels(wideLabels: seq<nat>, bits: seq<bool>): (r: seq<nat>)
    requires |wideLabels| == WideCount(|bits|)
    ensures |r| == ChunkCount(|bits|, CHUNK_BITS)
  {
    seq<nat>(ChunkCount(|bits|, CHUNK_BITS), c requires 0 <= c < ChunkCount(|bits|, CHUNK_BITS) =>
      Selected(wideLabels, bits, c))
  }

  /**
   * In chunk `c`, no wide label before the selected one has a mask that agrees with the selected one's
   * on all bits of the tag.
   */
  ghost predicate NoFalseOpening(mask: Mask, wideLabels: seq<nat>, wires: seq<GarbledWire>, bits: seq<bool>, c: nat)
    requires |wideLabels| == WideCount(|wires|) && |bits| == |wires| && c < ChunkCount(|bits|, CHUNK_BITS)
  {
    ChunksAligned(wideLabels, bits, c);
    BigEndianBound(Chunk(bits, CHUNK_BITS, c));
    NoEarlierOpens(mask, Chunk(wideLabels, CHUNK_LABELS, c), |Chunk(wires, CHUNK_BITS, c)|,
                   BigEndian(Chunk(bits, CHUNK_BITS, c)))
  }

  /** The table of a chunk, looked up with the selected label, gives the chunk's labels and bits. */
  lemma ChunkLookup(mask: Mask, wideLabels: seq<nat>, wires: seq<GarbledWire>, bits: seq<bool>, c: nat)
    requires |wideLabels| == WideCount(|wires|) && |bits| == |wires| && c < ChunkCount(|bits|, CHUNK_BITS)
    ensures CHUNK_BITS * c < |bits|
    ensures Rows(TableOf(mask, wideLabels, wires, c), |Chunk(wires, CHUNK_BITS, c)|)
    ensures NoFalseOpening(mask, wideLabels, wires, bits, c) <==>
              Lookup(mask, TableOf(mask, wideLabels, wires, c), Selected(wideLabels, bits, c),
                     |Chunk(wires, CHUNK_BITS, c)|, 0)
              == Some((BigEndian(Chunk(bits, CHUNK_BITS, c)),
                       EncodedWires(Chunk(wires, CHUNK_BITS, c), Chunk(bits, CHUNK_BITS, c))))
  {
    ChunksAligned(wideLabels, wires, c);
    var chunk := Chunk(bits, CHUNK_BITS, c);
    BigEndianBound(chunk);
    IndexBitsInverse(chunk);
    LookupExact(mask, Chunk(wideLabels, CHUNK_LABELS, c), Chunk(wires, CHUNK_BITS, c), BigEndian(chunk));
  }

  /** The base-two logarithm, rounded down. */
  method ILog2(n: nat) returns (k: nat)
    requires n > 0
    ensures Pow2(k) <= n < Pow2(k + 1)
  {
    k := 0;
    assert Pow2(0) == 1;
    while Pow2(k + 1) <= n
      invariant Pow2(k) <= n
      decreases n - Pow2(k)
    {
      k := k + 1;
    }
  }

  lemma ILog2Unique(j: nat, k: nat)
    requires Pow2(k) <= Pow2(j) < Pow2(k + 1)
    ensures j == k
  {
    if j < k {
      Pow2Monotone(j, k);
    } else {
      Pow2Monotone(k + 1, j + 1);
      if j > k {
        Pow2Monotone(k + 1, j);
      }
    }
  }

  /** Looking up in a table, whose number of rows tells how many labels a row holds. */
  method LookupTable(mask: Mask, t: Table, key: nat, ghost k: nat) returns (found: Option<(nat, seq<EvaluatedWire>)>)
    requires Rows(t, k) && |t| == Pow2(k)
    ensures found == Lookup(mask, t, key, k, 0)
  {
    var count := ILog2(|t|);
    ILog2Unique(k, count);
    found := Lookup(mask, t, key, count, 0);
  }
}
