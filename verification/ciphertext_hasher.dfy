/** The chained hash of a ciphertext stream, in batches, for one lane and for many. */
module CiphertextHasher {
  import opened Wrappers
  import opened Bits

  const BATCH_SIZE: nat := 61
  const HEADER: nat := 40
  const CIPHERTEXT_BYTES: nat := 16
  const BATCH_INPUT_SIZE: nat := 8 + 32 + BATCH_SIZE * CIPHERTEXT_BYTES

  newtype Byte = x: int | 0 <= x < 256

  function ZeroBytes(n: nat): (r: seq<Byte>)
    ensures |r| == n && forall i :: 0 <= i < n ==> r[i] == 0
  {
    seq(n, i => 0)
  }

  type Ciphertext = s: seq<Byte> | |s| == 16 witness ZeroBytes(16)
  type Digest = s: seq<Byte> | |s| == 32 witness ZeroBytes(32)

  /** The hash function, uninterpreted. */
  type HashFunction = seq<Byte> -> Digest

  function ByteOf(n: nat, i: nat): Byte
    decreases i
  {
    if i == 0 then (n % 256) as Byte else ByteOf(n / 256, i - 1)
  }

  /** The lowest bytes of a number, lowest first. */
  function Bytes(n: nat, count: nat): (r: seq<Byte>)
    ensures |r| == count
  {
    seq(count, i requires 0 <= i < count => ByteOf(n, i))
  }

  /** The bytes of a 64-bit batch index. */
  function IndexBytes(n: nat): (r: seq<Byte>)
    ensures |r| == 8
  {
    Bytes(n, 8)
  }

  function Flatten(cts: seq<Ciphertext>): (r: seq<Byte>)
    ensures |r| == 16 * |cts|
  {
    if |cts| == 0 then [] else Flatten(cts[..|cts| - 1]) + cts[|cts| - 1]
  }

  /** Hashes the stream chunk by chunk, each with its index and the hash before it. */
  function Chained(hash: HashFunction, prev: Digest, index: nat, cts: seq<Ciphertext>): Digest
    decreases |cts|
  {
    if |cts| == 0 then prev
    else if |cts| <= BATCH_SIZE then hash(IndexBytes(index) + prev + Flatten(cts))
    else
      Chained(hash, hash(IndexBytes(index) + prev + Flatten(cts[..BATCH_SIZE])), index + 1, cts[BATCH_SIZE..])
  }

  function StreamHash(hash: HashFunction, cts: seq<Ciphertext>): Digest {
    Chained(hash, ZeroBytes(32), 0, cts)
  }

  // ----- what the bytes are

  /** The number that some bytes stand for, lowest first. */
  function LittleEndian(bytes: seq<Byte>): nat {
    if |bytes| == 0 then 0 else bytes[0] as nat + 256 * LittleEndian(bytes[1..])
  }

  lemma ModMul(n: nat, m: nat)
    requires m >= 1
    ensures n % (256 * m) == n % 256 + 256 * (n / 256 % m)
  {
    var low, high, q := n % 256, n / 256 % m, n / 256 / m;
    assert n == 256 * (q * m + high) + low;
    assert 256 * (q * m) == q * (256 * m);
    assert n == q * (256 * m) + (256 * high + low) && 0 <= 256 * high + low < 256 * m;
    DivModUnique(n, 256 * m, q, 256 * high + low);
  }

  lemma ByteAbove(n: nat, i: nat)
    requires i > 0
    ensures ByteOf(n, i) == ByteOf(n / 256, i - 1)
  {
  }

  lemma FirstByte(n: nat, count: nat)
    requires count > 0
    ensures Bytes(n, count)[0] as nat == n % 256 && Bytes(n, count)[1..] == Bytes(n / 256, count - 1)
  {
    assert ByteOf(n, 0) == (n % 256) as Byte;
    hide ByteOf;
    forall i | 0 < i < count ensures ByteOf(n, i) == ByteOf(n / 256, i - 1) {
      ByteAbove(n, i);
    }
  }

  lemma OneByteMore(count: nat)
    ensures Pow2(8 * (count + 1)) == 256 * Pow2(8 * count)
  {
    Pow2Add(8, 8 * count);
    assert Pow2(4) == 16;
  }

  lemma {:induction false} BytesValue(n: nat, count: nat)
    ensures LittleEndian(Bytes(n, count)) == n % Pow2(8 * count)
  {
    if count > 0 {
      FirstByte(n, count);
      hide Bytes, ByteOf, Pow2;
      BytesValue(n / 256, count - 1);
      LittleEndianCons(Bytes(n, count), n % 256, n / 256 % Pow2(8 * (count - 1)));
      ModMul(n, Pow2(8 * (count - 1)));
      OneByteMore(count - 1);
    }
  }

  lemma LittleEndianCons(bytes: seq<Byte>, low: nat, high: nat)
    requires |bytes| > 0 && bytes[0] as nat == low && LittleEndian(bytes[1..]) == high
    ensures LittleEndian(bytes) == low + 256 * high
  {
  }

  /** The index bytes are the index modulo 2^64, lowest byte first. */
  lemma IndexBytesValue(n: nat)
    ensures LittleEndian(IndexBytes(n)) == n % Pow2(64)
  {
    BytesValue(n, 8);
  }

  lemma FlattenByte(cts: seq<Ciphertext>, i: nat, j: nat)
    requires i < |cts| && j < 16
    ensures Flatten(cts)[16 * i + j] == cts[i][j]
    decreases |cts|
  {
    if i < |cts| - 1 {
      FlattenByte(cts[..|cts| - 1], i, j);
    }
  }

  /** A batch is as many ciphertexts as fit, with index and previous hash, into 1024 bytes. */
  lemma BatchFits()
    ensures BATCH_INPUT_SIZE == 8 + 32 + 16 * BATCH_SIZE <= 1024 < 8 + 32 + 16 * (BATCH_SIZE + 1)
  {
  }

  /**
   * The hash of an empty stream is zeros; up to 61 ciphertexts are hashed after forty zero bytes; the
   * next one is hashed after the index one, lowest byte first, and the hash of those 61.
   */
  lemma FirstBatches(hash: HashFunction, cts: seq<Ciphertext>)
    ensures |cts| == 0 ==> StreamHash(hash, cts) == ZeroBytes(32)
    ensures 0 < |cts| <= 61 ==> StreamHash(hash, cts) == hash(ZeroBytes(40) + Flatten(cts))
    ensures |cts| == 62 ==>
              StreamHash(hash, cts) == hash([1, 0, 0, 0, 0, 0, 0, 0] + StreamHash(hash, cts[..61]) + cts[61])
  {
    SmallIndexBytes();
    assert ZeroBytes(8) + ZeroBytes(32) == ZeroBytes(40);
    if |cts| == 62 {
      ChainedOne(hash, ZeroBytes(32), 0, cts);
      assert Flatten(cts[61..]) == cts[61] by {
        assert cts[61..][..0] == [] && cts[61..][0] == cts[61];
      }
    }
  }

  lemma SmallIndexBytes()
    ensures IndexBytes(0) == ZeroBytes(8) && IndexBytes(1) == [1, 0, 0, 0, 0, 0, 0, 0]
  {
    forall i: nat ensures ByteOf(0, i) == 0 { ZeroByte(i); }
    assert forall i :: 0 < i < 8 ==> ByteOf(1, i) == ByteOf(0, i - 1);
  }

  lemma ZeroByte(i: nat)
    ensures ByteOf(0, i) == 0
  {
  }

  /** Full batches first, then the rest. */
  lemma {:induction false} ChainedSplit(hash: HashFunction, prev: Digest, index: nat, n: nat, cts: seq<Ciphertext>)
    requires BATCH_SIZE * n <= |cts|
    ensures Chained(hash, prev, index, cts) ==
            Chained(hash, Chained(hash, prev, index, cts[..BATCH_SIZE * n]), index + n, cts[BATCH_SIZE * n..])
    decreases n
  {
    if n == 0 {
      assert cts[BATCH_SIZE * n..] == cts;
    } else {
      var batch := cts[..BATCH_SIZE];
      var next: Digest := hash(IndexBytes(index) + prev + Flatten(batch));
      var rest := cts[BATCH_SIZE..];
      ChainedSplit(hash, next, index + 1, n - 1, rest);
      assert cts[..BATCH_SIZE * n][BATCH_SIZE..] == rest[..BATCH_SIZE * (n - 1)];
      assert cts[..BATCH_SIZE * n][..BATCH_SIZE] == batch;
      assert cts[BATCH_SIZE * n..] == rest[BATCH_SIZE * (n - 1)..];
      ChainedOne(hash, prev, index, cts);
      ChainedOne(hash, prev, index, cts[..BATCH_SIZE * n]);
    }
  }

  lemma ChainedOne(hash: HashFunction, prev: Digest, index: nat, cts: seq<Ciphertext>)
    requires |cts| >= BATCH_SIZE
    ensures Chained(hash, prev, index, cts) ==
            Chained(hash, hash(IndexBytes(index) + prev + Flatten(cts[..BATCH_SIZE])), index + 1, cts[BATCH_SIZE..])
  {
    if |cts| == BATCH_SIZE {
      assert cts[..BATCH_SIZE] == cts;
    }
  }

  // ----- the buffer

  /**
   * The buffer after some ciphertexts: the previous hash is that of the full batches so far, and
   * the ciphertexts of the current batch follow. Nothing is said of the other bytes.
   */
  ghost predicate Buffered(hash: HashFunction, buffer: seq<Byte>, pos: nat, index: nat, cts: seq<Ciphertext>) {
    && |buffer| == BATCH_INPUT_SIZE && |cts| == BATCH_SIZE * index + pos && pos < BATCH_SIZE
    && buffer[8..HEADER] == Chained(hash, ZeroBytes(32), 0, cts[..BATCH_SIZE * index])
    && buffer[HEADER..HEADER + CIPHERTEXT_BYTES * pos] == Flatten(cts[BATCH_SIZE * index..])
  }

  /** The batch is complete or partial, but not yet hashed. */
  ghost predicate Filled(hash: HashFunction, buffer: seq<Byte>, pos: nat, index: nat, cts: seq<Ciphertext>) {
    && |buffer| == BATCH_INPUT_SIZE && |cts| == BATCH_SIZE * index + pos && pos <= BATCH_SIZE
    && buffer[8..HEADER] == Chained(hash, ZeroBytes(32), 0, cts[..BATCH_SIZE * index])
    && buffer[HEADER..HEADER + CIPHERTEXT_BYTES * pos] == Flatten(cts[BATCH_SIZE * index..])
  }

  lemma Written(hash: HashFunction, buffer: seq<Byte>, pos: nat, index: nat, cts: seq<Ciphertext>, ct: Ciphertext)
    requires Buffered(hash, buffer, pos, index, cts)
    ensures Filled(hash, WriteSlice(buffer, HEADER + pos * CIPHERTEXT_BYTES, ct), pos + 1, index, cts + [ct])
  {
    var b := WriteSlice(buffer, HEADER + pos * CIPHERTEXT_BYTES, ct);
    var tail, tail' := cts[BATCH_SIZE * index..], (cts + [ct])[BATCH_SIZE * index..];
    hide Chained, WriteSlice;
    assert (cts + [ct])[..BATCH_SIZE * index] == cts[..BATCH_SIZE * index];
    assert tail' == tail + [ct] && tail'[..|tail'| - 1] == tail;
    assert b[8..HEADER] == buffer[8..HEADER];
    assert b[HEADER..HEADER + CIPHERTEXT_BYTES * (pos + 1)] == buffer[HEADER..HEADER + CIPHERTEXT_BYTES * pos] + ct;
  }

  /** The bytes that a flush hashes. */
  lemma FlushedHash(hash: HashFunction, buffer: seq<Byte>, pos: nat, index: nat, cts: seq<Ciphertext>)
    requires Filled(hash, buffer, pos, index, cts) && pos > 0
    ensures var input := WriteSlice(buffer, 0, IndexBytes(index));
            hash(input[..HEADER + pos * CIPHERTEXT_BYTES]) == StreamHash(hash, cts)
  {
    var input := WriteSlice(buffer, 0, IndexBytes(index));
    var prev := Chained(hash, ZeroBytes(32), 0, cts[..BATCH_SIZE * index]);
    var tail := cts[BATCH_SIZE * index..];
    ChainedSplit(hash, ZeroBytes(32), 0, index, cts);
    assert Chained(hash, prev, index, tail) == hash(IndexBytes(index) + prev + Flatten(tail));
    hide Chained, WriteSlice, Flatten;
    assert input[..8] == IndexBytes(index);
    assert input[8..HEADER] == buffer[8..HEADER] == prev;
    assert input[HEADER..HEADER + pos * CIPHERTEXT_BYTES] == buffer[HEADER..HEADER + CIPHERTEXT_BYTES * pos];
    assert input[..HEADER + pos * CIPHERTEXT_BYTES]
        == input[..8] + input[8..HEADER] + input[HEADER..HEADER + pos * CIPHERTEXT_BYTES];
  }

  lemma Flushed(hash: HashFunction, buffer: seq<Byte>, index: nat, cts: seq<Ciphertext>, digest: Digest)
    requires |buffer| == BATCH_INPUT_SIZE && |cts| == BATCH_SIZE * (index + 1) && digest == StreamHash(hash, cts)
    ensures Buffered(hash, WriteSlice(WriteSlice(buffer, 0, IndexBytes(index)), 8, digest), 0, index + 1, cts)
  {
    hide Chained, WriteSlice;
    assert cts[..BATCH_SIZE * (index + 1)] == cts;
  }

  lemma HashSoFar(hash: HashFunction, buffer: seq<Byte>, index: nat, cts: seq<Ciphertext>)
    requires Buffered(hash, buffer, 0, index, cts)
    ensures buffer[8..HEADER] == StreamHash(hash, cts)
  {
    assert cts[..BATCH_SIZE * index] == cts;
  }

  /** Copies bytes into a buffer in place. */
  method CopyFrom(buffer: array<Byte>, i: nat, bytes: seq<Byte>)
    requires i + |bytes| <= buffer.Length
    modifies buffer
    ensures buffer[..] == WriteSlice(old(buffer[..]), i, bytes)
  {
    for j := 0 to |bytes|
      invariant forall k :: 0 <= k < buffer.Length ==>
                  buffer[k] == if i <= k < i + j then bytes[k - i] else old(buffer[k])
    {
      buffer[i + j] := bytes[j];
    }
  }

  /** The incremental hash of one stream. */
  class AccumulatingHash {
    const hash: HashFunction
    const batchInput: array<Byte>
    var bufferPos: nat
    var batchIndex: nat

    ghost predicate Valid(cts: seq<Ciphertext>)
      reads this, batchInput
    {
      Buffered(hash, batchInput[..], bufferPos, batchIndex, cts)
    }

    constructor (hash: HashFunction)
      ensures Valid([]) && fresh(batchInput) && this.hash == hash
    {
      this.hash := hash;
      batchInput := new Byte[BATCH_INPUT_SIZE](i => 0);
      bufferPos, batchIndex := 0, 0;
      new;
      assert batchInput[8..HEADER] == ZeroBytes(32);
      assert batchInput[..][8..HEADER] == batchInput[8..HEADER];
    }

    method Update(ct: Ciphertext, ghost cts: seq<Ciphertext>)
      requires Valid(cts)
      modifies this, batchInput
      ensures Valid(cts + [ct])
    {
      Written(hash, batchInput[..], bufferPos, batchIndex, cts, ct);
      hide Buffered, Filled, StreamHash;
      BufferedSize(hash, batchInput[..], bufferPos, batchIndex, cts);
      CopyFrom(batchInput, HEADER + bufferPos * CIPHERTEXT_BYTES, ct);
      bufferPos := bufferPos + 1;
      if bufferPos == BATCH_SIZE {
        FlushBatch(cts + [ct]);
      } else {
        FilledBuffered(hash, batchInput[..], bufferPos, batchIndex, cts + [ct]);
      }
    }

    /** Hashes the current batch, if there is one, and leaves the hash of everything so far in its place. */
    method FlushBatch(ghost cts: seq<Ciphertext>)
      requires Filled(hash, batchInput[..], bufferPos, batchIndex, cts)
      modifies this, batchInput
      ensures batchInput.Length == BATCH_INPUT_SIZE && batchInput[8..HEADER] == StreamHash(hash, cts)
      ensures old(bufferPos) == BATCH_SIZE ==> Valid(cts)
    {
      if bufferPos == 0 {
        assert Buffered(hash, batchInput[..], 0, batchIndex, cts);
        HashSoFar(hash, batchInput[..], batchIndex, cts);
        return;
      }
      FlushedHash(hash, batchInput[..], bufferPos, batchIndex, cts);
      hide StreamHash, WriteSlice;
      CopyFrom(batchInput, 0, IndexBytes(batchIndex));
      var digest := hash(batchInput[..HEADER + bufferPos * CIPHERTEXT_BYTES]);
      assert batchInput[..][..HEADER + bufferPos * CIPHERTEXT_BYTES]
          == batchInput[..HEADER + bufferPos * CIPHERTEXT_BYTES];
      CopyFrom(batchInput, 8, digest);
      assert batchInput[8..HEADER] == digest;
      if bufferPos == BATCH_SIZE {
        Flushed(hash, old(batchInput[..]), batchIndex, cts, digest);
      }
      batchIndex := batchIndex + 1;
      bufferPos := 0;
    }

    /** The hash of all ciphertexts, whatever their number. */
    method Finalize(ghost cts: seq<Ciphertext>) returns (digest: Digest)
      requires Valid(cts)
      modifies this, batchInput
      ensures digest == StreamHash(hash, cts)
    {
      FlushBatch(cts);
      digest := batchInput[8..HEADER];
    }
  }

  lemma BufferedSize(hash: HashFunction, buffer: seq<Byte>, pos: nat, index: nat, cts: seq<Ciphertext>)
    requires Buffered(hash, buffer, pos, index, cts)
    ensures |buffer| == BATCH_INPUT_SIZE && pos < BATCH_SIZE
  {
  }

  lemma FilledBuffered(hash: HashFunction, buffer: seq<Byte>, pos: nat, index: nat, cts: seq<Ciphertext>)
    requires Filled(hash, buffer, pos, index, cts) && pos != BATCH_SIZE
    ensures Buffered(hash, buffer, pos, index, cts)
  {
  }

  /** The whole stream at once. */
  method HashStream(hash: HashFunction, cts: seq<Ciphertext>) returns (digest: Digest)
    ensures digest == StreamHash(hash, cts)
  {
    hide Buffered, StreamHash;
    var h := new AccumulatingHash(hash);
    for i := 0 to |cts|
      invariant fresh(h) && fresh(h.batchInput) && h.hash == hash
      invariant h.Valid(cts[..i])
    {
      assert cts[..i + 1] == cts[..i] + [cts[i]];
      h.Update(cts[i], cts[..i]);
    }
    assert cts[..|cts|] == cts;
    digest := h.Finalize(cts);
  }

  // ----- many lanes

  /** Lane `i` of a stream of batches. */
  function LaneOf(batches: seq<seq<Ciphertext>>, i: nat): (r: seq<Ciphertext>)
    requires forall j :: 0 <= j < |batches| ==> i < |batches[j]|
    ensures |r| == |batches| && forall j :: 0 <= j < |batches| ==> r[j] == batches[j][i]
  {
    seq<Ciphertext>(|batches|, j requires 0 <= j < |batches| => batches[j][i])
  }

  /** One incremental hash per lane, kept in parallel arrays. */
  class AccumulatingHashBatch {
    const hash: HashFunction
    const batchInputs: array<seq<Byte>>
    const bufferPositions: array<nat>
    const batchIndices: array<nat>

    ghost predicate Sized(n: nat) {
      && batchInputs.Length == bufferPositions.Length == batchIndices.Length == n
      && bufferPositions != batchIndices
    }

    ghost predicate LaneValid(i: nat, cts: seq<Ciphertext>)
      reads batchInputs, bufferPositions, batchIndices
    {
      && i < batchInputs.Length && i < bufferPositions.Length && i < batchIndices.Length
      && Buffered(hash, batchInputs[i], bufferPositions[i], batchIndices[i], cts)
    }

    ghost predicate Valid(n: nat, batches: seq<seq<Ciphertext>>)
      reads batchInputs, bufferPositions, batchIndices
    {
      && Sized(n) && (forall j :: 0 <= j < |batches| ==> |batches[j]| == n)
      && forall i :: 0 <= i < n ==> LaneValid(i, LaneOf(batches, i))
    }

    constructor (hash: HashFunction, n: nat)
      ensures Valid(n, []) && fresh(batchInputs) && fresh(bufferPositions) && fresh(batchIndices) && this.hash == hash
    {
      this.hash := hash;
      batchInputs := new seq<Byte>[n](i => ZeroBytes(BATCH_INPUT_SIZE));
      bufferPositions := new nat[n](i => 0);
      batchIndices := new nat[n](i => 0);
      new;
      assert ZeroBytes(BATCH_INPUT_SIZE)[8..HEADER] == ZeroBytes(32);
      assert ZeroBytes(BATCH_INPUT_SIZE)[HEADER..HEADER] == [];
    }

    /** The next ciphertext of one lane. */
    method UpdateLane(i: nat, ct: Ciphertext, ghost n: nat, ghost cts: seq<Ciphertext>)
      requires Sized(n) && i < n && LaneValid(i, cts)
      modifies batchInputs, bufferPositions, batchIndices
      ensures LaneValid(i, cts + [ct])
      ensures forall j :: 0 <= j < n && j != i ==>
                && batchInputs[j] == old(batchInputs[j]) && bufferPositions[j] == old(bufferPositions[j])
                && batchIndices[j] == old(batchIndices[j])
    {
      Written(hash, batchInputs[i], bufferPositions[i], batchIndices[i], cts, ct);
      BufferedSize(hash, batchInputs[i], bufferPositions[i], batchIndices[i], cts);
      hide Buffered, Filled, StreamHash;
      batchInputs[i] := WriteSlice(batchInputs[i], HEADER + bufferPositions[i] * CIPHERTEXT_BYTES, ct);
      bufferPositions[i] := bufferPositions[i] + 1;
      if bufferPositions[i] == BATCH_SIZE {
        var _ := FlushLane(i, n, cts + [ct]);
      } else {
        FilledBuffered(hash, batchInputs[i], bufferPositions[i], batchIndices[i], cts + [ct]);
      }
    }

    method FlushLane(i: nat, ghost n: nat, ghost cts: seq<Ciphertext>) returns (digest: Digest)
      requires Sized(n) && i < n && Filled(hash, batchInputs[i], bufferPositions[i], batchIndices[i], cts)
      modifies batchInputs, bufferPositions, batchIndices
      ensures digest == StreamHash(hash, cts) && |batchInputs[i]| == BATCH_INPUT_SIZE
      ensures digest == batchInputs[i][8..HEADER]
      ensures old(bufferPositions[i]) == BATCH_SIZE ==> LaneValid(i, cts)
      ensures forall j :: 0 <= j < n && j != i ==>
                && batchInputs[j] == old(batchInputs[j]) && bufferPositions[j] == old(bufferPositions[j])
                && batchIndices[j] == old(batchIndices[j])
    {
      if bufferPositions[i] == 0 {
        assert Buffered(hash, batchInputs[i], 0, batchIndices[i], cts);
        HashSoFar(hash, batchInputs[i], batchIndices[i], cts);
        return batchInputs[i][8..HEADER];
      }
      FlushedHash(hash, batchInputs[i], bufferPositions[i], batchIndices[i], cts);
      hide StreamHash, WriteSlice;
      var input := WriteSlice(batchInputs[i], 0, IndexBytes(batchIndices[i]));
      digest := hash(input[..HEADER + bufferPositions[i] * CIPHERTEXT_BYTES]);
      if bufferPositions[i] == BATCH_SIZE {
        Flushed(hash, batchInputs[i], batchIndices[i], cts, digest);
      }
      batchInputs[i] := WriteSlice(input, 8, digest);
      assert batchInputs[i][8..HEADER] == digest;
      batchIndices[i] := batchIndices[i] + 1;
      bufferPositions[i] := 0;
    }

    /** One ciphertext for every lane. */
    method Handle(cts: seq<Ciphertext>, ghost batches: seq<seq<Ciphertext>>)
      requires Valid(|cts|, batches)
      modifies batchInputs, bufferPositions, batchIndices
      ensures Valid(|cts|, batches + [cts])
    {
      hide Buffered;
      for i := 0 to |cts|
        invariant Sized(|cts|)
        invariant forall j :: 0 <= j < i ==> LaneValid(j, LaneOf(batches + [cts], j))
        invariant forall j :: i <= j < |cts| ==> LaneValid(j, LaneOf(batches, j))
      {
        assert LaneOf(batches + [cts], i) == LaneOf(batches, i) + [cts[i]];
        UpdateLane(i, cts[i], |cts|, LaneOf(batches, i));
      }
    }

    /** What each lane would get from a hash of its own. */
    method Finalize(n: nat, ghost batches: seq<seq<Ciphertext>>) returns (digests: seq<Digest>)
      requires Valid(n, batches)
      modifies batchInputs, bufferPositions, batchIndices
      ensures |digests| == n && forall i :: 0 <= i < n ==> digests[i] == StreamHash(hash, LaneOf(batches, i))
    {
      hide StreamHash, Buffered, Filled;
      digests := [];
      for i := 0 to n
        invariant Sized(n) && |digests| == i
        invariant forall j :: 0 <= j < i ==> digests[j] == StreamHash(hash, LaneOf(batches, j))
        invariant forall j :: i <= j < n ==> LaneValid(j, LaneOf(batches, j))
      {
        LaneFilled(i, LaneOf(batches, i));
        var digest := FlushLane(i, n, LaneOf(batches, i));
        digests := digests + [digest];
      }
    }

    lemma LaneFilled(i: nat, cts: seq<Ciphertext>)
      requires LaneValid(i, cts)
      ensures Filled(hash, batchInputs[i], bufferPositions[i], batchIndices[i], cts)
    {
    }
  }
}
