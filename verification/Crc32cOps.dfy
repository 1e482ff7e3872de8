/** The two CRC32C loops of the source, software and hardware, against the reference in `Crc32c`.
    `addr` is the address of the data, which decides how many bytes the alignment loop takes. */
module Crc32cOps {
  import opened Bytes
  import opened Crc32c

  lemma {:induction false} Extend(crc: word, data: bytes, from: nat, i: nat, j: nat)
    requires from <= i <= j <= |data|
    ensures Crc(crc, data[from..j]) == Crc(Crc(crc, data[from..i]), data[i..j])
  {
    hide Crc;
    assert data[from..j] == data[from..i] + data[i..j];
    CrcConcat(crc, data[from..i], data[i..j]);
  }

  method SoftwareCrc(start: word, addr: nat, data: bytes) returns (crc: word)
    ensures crc == Crc(start, data)
  {
    hide Crc, Slice8, Byte1;
    crc := start;
    var i: nat := 0;
    CrcEmpty(start);
    while (addr + i) % 4 != 0 && i < |data|
      invariant i <= |data| && crc == Crc(start, data[0..i])
      decreases |data| - i
    {
      crc := ByteStep(start, data, i, crc);
      i := i + 1;
    }
    while |data| - i >= 64
      invariant i <= |data| && crc == Crc(start, data[0..i])
      decreases |data| - i
    {
      ghost var base := i;
      for k := 0 to 8
        invariant i == base + 8 * k && base + 64 <= |data| && crc == Crc(start, data[0..i])
      {
        crc := WordStep(start, data, i, crc);
        i := i + 8;
      }
    }
    while |data| - i >= 8
      invariant i <= |data| && crc == Crc(start, data[0..i])
      decreases |data| - i
    {
      crc := WordStep(start, data, i, crc);
      i := i + 8;
    }
    while i < |data|
      invariant i <= |data| && crc == Crc(start, data[0..i])
      decreases |data| - i
    {
      crc := ByteStep(start, data, i, crc);
      i := i + 1;
    }
    assert data[0..i] == data;
  }

  lemma CrcEmpty(start: word)
    ensures Crc(start, []) == start
  {
  }

  method ByteStep(ghost start: word, data: bytes, i: nat, before: word) returns (crc: word)
    requires i < |data| && before == Crc(start, data[0..i])
    ensures crc == Crc(start, data[0..i + 1])
  {
    hide Crc, Byte1;
    crc := Byte1(before, data[i]);
    Byte1IsCrc(before, data[i]);
    Extend(start, data, 0, i, i + 1);
    assert data[i..i + 1] == [data[i]];
  }

  method WordStep(ghost start: word, data: bytes, i: nat, before: word) returns (crc: word)
    requires i + 8 <= |data| && before == Crc(start, data[0..i])
    ensures crc == Crc(start, data[0..i + 8])
  {
    hide Crc, Slice8;
    crc := Slice8(before, data[i..i + 8]);
    Slice8IsCrc(before, data[i..i + 8]);
    Extend(start, data, 0, i, i + 8);
  }

  // ---------- three streams ----------

  const CHUNK: nat := 1360

  /** Entry `b` of table `k` of the chunk-shifting tables. */
  function ChunkTable(k: nat, b: word): word
    requires k < 4
  {
    ShiftBy(CHUNK, Place(b, k))
  }

  function ShiftChunk(crc: word): word {
    Xor4(ChunkTable(0, ByteOf(crc, 0)), ChunkTable(1, ByteOf(crc, 1)),
         ChunkTable(2, ByteOf(crc, 2)), ChunkTable(3, ByteOf(crc, 3)))
  }

  lemma {:induction false} ShiftChunkIsShift(crc: word)
    ensures ShiftChunk(crc) == ShiftBy(CHUNK, crc)
  {
    hide ShiftBy, Xor, ByteOf, Place;
    WordOfBytes(crc);
    var p0, p1 := ByteOf(crc, 0), Place(ByteOf(crc, 1), 1);
    var p2, p3 := Place(ByteOf(crc, 2), 2), Place(ByteOf(crc, 3), 3);
    ShiftByLinear(CHUNK, Xor(Xor(p0, p1), p2), p3);
    ShiftByLinear(CHUNK, Xor(p0, p1), p2);
    ShiftByLinear(CHUNK, p0, p1);
    PlaceZero(p0);
  }

  /** Appending a chunk that was processed from zero. */
  lemma {:induction false} MergeChunk(start: word, data: bytes, i: nat, crc: word)
    requires i + CHUNK <= |data| && crc == Crc(start, data[0..i])
    ensures Xor(ShiftChunk(crc), Crc(0, data[i..i + CHUNK])) == Crc(start, data[0..i + CHUNK])
  {
    hide ShiftBy, ShiftChunk, Xor, Crc;
    ShiftChunkIsShift(crc);
    CrcSplit(crc, data[i..i + CHUNK]);
    Extend(start, data, 0, i, i + CHUNK);
  }

  /** The processor instruction: eight bytes of the reference at once. */
  function CrcInstruction(crc: word, d: bytes): word
    requires |d| == 8
  {
    Crc(crc, d)
  }

  method ThreeChunks(ghost start: word, data: bytes, i: nat, before: word) returns (crc: word)
    requires i + 3 * CHUNK <= |data| && before == Crc(start, data[0..i])
    ensures crc == Crc(start, data[0..i + 3 * CHUNK])
  {
    hide Crc, ShiftChunk, Xor;
    var crc0, crc1, crc2 := before, 0 as word, 0 as word;
    var j, end := i, i + CHUNK;
    CrcEmpty(0);
    assert data[i + CHUNK..i + CHUNK] == [] && data[i + 2 * CHUNK..i + 2 * CHUNK] == [];
    while j < end
      invariant i <= j <= end && (end - j) % 8 == 0
      invariant crc0 == Crc(start, data[0..j])
      invariant crc1 == Crc(0, data[i + CHUNK..j + CHUNK])
      invariant crc2 == Crc(0, data[i + 2 * CHUNK..j + 2 * CHUNK])
    {
      Extend(start, data, 0, j, j + 8);
      Extend(0, data, i + CHUNK, j + CHUNK, j + 8 + CHUNK);
      Extend(0, data, i + 2 * CHUNK, j + 2 * CHUNK, j + 8 + 2 * CHUNK);
      crc0 := CrcInstruction(crc0, data[j..j + 8]);
      crc1 := CrcInstruction(crc1, data[j + CHUNK..j + 8 + CHUNK]);
      crc2 := CrcInstruction(crc2, data[j + 2 * CHUNK..j + 8 + 2 * CHUNK]);
      j := j + 8;
    }
    MergeChunk(start, data, i + CHUNK, crc0);
    crc := Xor(ShiftChunk(crc0), crc1);
    MergeChunk(start, data, i + 2 * CHUNK, crc);
    crc := Xor(ShiftChunk(crc), crc2);
  }

  method HardwareCrc(start: word, addr: nat, data: bytes) returns (crc: word)
    ensures crc == Crc(start, data)
  {
    hide Crc, Byte1, ShiftChunk;
    crc := start;
    var i: nat := 0;
    CrcEmpty(start);
    while (addr + i) % 8 != 0 && i < |data|
      invariant i <= |data| && crc == Crc(start, data[0..i])
      decreases |data| - i
    {
      Extend(start, data, 0, i, i + 1);
      crc := Crc(crc, data[i..i + 1]);
      i := i + 1;
    }
    while |data| - i >= 3 * CHUNK
      invariant i <= |data| && crc == Crc(start, data[0..i])
      decreases |data| - i
    {
      crc := ThreeChunks(start, data, i, crc);
      i := i + 3 * CHUNK;
    }
    while |data| - i >= 32
      invariant i <= |data| && crc == Crc(start, data[0..i])
      decreases |data| - i
    {
      ghost var base := i;
      for k := 0 to 4
        invariant i == base + 8 * k && base + 32 <= |data| && crc == Crc(start, data[0..i])
      {
        Extend(start, data, 0, i, i + 8);
        crc := CrcInstruction(crc, data[i..i + 8]);
        i := i + 8;
      }
    }
    while |data| - i >= 8
      invariant i <= |data| && crc == Crc(start, data[0..i])
      decreases |data| - i
    {
      Extend(start, data, 0, i, i + 8);
      crc := CrcInstruction(crc, data[i..i + 8]);
      i := i + 8;
    }
    while i < |data|
      invariant i <= |data| && crc == Crc(start, data[0..i])
      decreases |data| - i
    {
      Extend(start, data, 0, i, i + 1);
      crc := Crc(crc, data[i..i + 1]);
      i := i + 1;
    }
    assert data[0..i] == data;
  }
}
