/**
 The in-circuit block decoder: each packed block is decomposed into its
 255 little-endian bits, bits 0..250 are read two at a time as the bases
 `bit0 + 2 * bit1`, and every bit from 250 on is constrained to be zero.
 The same loop runs over the reference, the target and the CIGAR blocks.
 */
module Decoder {
  import opened Field
  import opened Encoding

  /** One base from its two bits, `bit0 + two * bit1`. */
  function PairValue(b0: bool, b1: bool): Felt
  {
    Bit(b0) + 2 * Bit(b1)
  }

  /** The 125 bases of one block, in order. */
  function DecodeBlock(block: Felt): (bases: seq<Felt>)
    ensures |bases| == BASES_PER_BLOCK
  {
    var bits := FeltBits(block);
    seq(BASES_PER_BLOCK, k requires 0 <= k < BASES_PER_BLOCK => PairValue(bits[2 * k], bits[2 * k + 1]))
  }

  /** The constraints on the block's high bits hold: bits 250..255 are zero. */
  predicate BlockWellFormed(block: Felt)
  {
    ZeroFrom(FeltBits(block), BLOCK_BITS)
  }

  predicate AllWellFormed(blocks: seq<Felt>)
  {
    forall j :: 0 <= j < |blocks| ==> BlockWellFormed(blocks[j])
  }

  /** The bases of all blocks, concatenated in block order. */
  function DecodeBlocks(blocks: seq<Felt>): (bases: seq<Felt>)
    ensures |bases| == BASES_PER_BLOCK * |blocks|
  {
    if blocks == [] then []
    else DecodeBlocks(blocks[..|blocks| - 1]) + DecodeBlock(blocks[|blocks| - 1])
  }

  /** Base `s` of the decoding is base `s % 125` of block `s / 125`. */
  lemma {:induction false} DecodeBlocksAt(blocks: seq<Felt>, s: nat)
    requires s < BASES_PER_BLOCK * |blocks|
    ensures DecodeBlocks(blocks)[s] == DecodeBlock(blocks[s / BASES_PER_BLOCK])[s % BASES_PER_BLOCK]
  {
    var m := |blocks| - 1;
    var front := blocks[..m];
    assert DecodeBlocks(blocks) == DecodeBlocks(front) + DecodeBlock(blocks[m]);
    if s < BASES_PER_BLOCK * m {
      DecodeBlocksAt(front, s);
      DivBelow(s, m);
      assert front[s / BASES_PER_BLOCK] == blocks[s / BASES_PER_BLOCK];
    } else {
      DivWithin(s, m);
    }
  }

  lemma DivBelow(s: nat, m: nat)
    requires s < BASES_PER_BLOCK * m
    ensures s / BASES_PER_BLOCK < m
  {
  }

  lemma DivWithin(s: nat, m: nat)
    requires BASES_PER_BLOCK * m <= s < BASES_PER_BLOCK * m + BASES_PER_BLOCK
    ensures s / BASES_PER_BLOCK == m && s % BASES_PER_BLOCK == s - BASES_PER_BLOCK * m
  {
  }

  /** Base `k` of a block is its `k`-th base-4 digit, hence a value in 0..3. */
  lemma DecodeBlockDigit(block: Felt, k: nat)
    requires k < BASES_PER_BLOCK
    ensures DecodeBlock(block)[k] == Shr(block, 2 * k) % 4 <= 3
  {
    var bits := FeltBits(block);
    var w := Shr(block, 2 * k);
    assert DecodeBlock(block)[k] == PairValue(bits[2 * k], bits[2 * k + 1]);
    ToBitsLeAt(block, MODULUS_BITS, 2 * k);
    ToBitsLeAt(block, MODULUS_BITS, 2 * k + 1);
    ShrSucc(block, 2 * k);
    assert bits[2 * k] == (w % 2 == 1) && bits[2 * k + 1] == ((w / 2) % 2 == 1);
    Mod4(w);
  }

  lemma Mod4(w: nat)
    ensures w % 4 == w % 2 + 2 * ((w / 2) % 2)
  {
  }

  /** A block passes the high-bit constraints exactly when its value is below 2^250. */
  lemma BlockWellFormedIff(block: Felt)
    ensures BlockWellFormed(block) <==> block < Pow2(BLOCK_BITS)
  {
    ModulusBounds();
    HighBitsZero(block, MODULUS_BITS, BLOCK_BITS);
  }

  /**
   The decoding loop of `generate_constraints`, run once per sequence: it
   pushes the bases of every block and conjoins the high-bit constraints.
   */
  method DecodeSequence(blocks: seq<Felt>) returns (bases: seq<Felt>, wellFormed: bool)
    ensures bases == DecodeBlocks(blocks)
    ensures |bases| == BASES_PER_BLOCK * |blocks|
    ensures forall s :: 0 <= s < |bases| ==> bases[s] <= 3
    ensures wellFormed <==> AllWellFormed(blocks)
    ensures wellFormed <==> forall j :: 0 <= j < |blocks| ==> blocks[j] < Pow2(BLOCK_BITS)
  {
    bases, wellFormed := [], true;
    for j := 0 to |blocks|
      invariant bases == DecodeBlocks(blocks[..j])
      invariant wellFormed <==> AllWellFormed(blocks[..j])
    {
      var bits := FeltBits(blocks[j]);
      for k := 0 to BASES_PER_BLOCK
        invariant bases == DecodeBlocks(blocks[..j]) + DecodeBlock(blocks[j])[..k]
      {
        DecodeBlockAt(blocks[j], k);
        PrefixSnoc(DecodeBlock(blocks[j]), k);
        bases := bases + [PairValue(bits[2 * k], bits[2 * k + 1])];
      }
      ghost var before := wellFormed;
      for t := BLOCK_BITS to MODULUS_BITS
        invariant wellFormed <==> before && forall t' :: BLOCK_BITS <= t' < t ==> !bits[t']
      {
        wellFormed := wellFormed && !bits[t];
      }
      assert blocks[..j + 1][..j] == blocks[..j];
    }
    assert blocks[..|blocks|] == blocks;
    DecodedBasesBounded(blocks);
    AllWellFormedIff(blocks);
  }

  /** Every decoded base is a value in 0..3. */
  lemma DecodedBasesBounded(blocks: seq<Felt>)
    ensures forall s :: 0 <= s < |DecodeBlocks(blocks)| ==> DecodeBlocks(blocks)[s] <= 3
  {
    forall s | 0 <= s < |DecodeBlocks(blocks)| ensures DecodeBlocks(blocks)[s] <= 3 {
      DecodeBlocksAt(blocks, s);
      DecodeBlockDigit(blocks[s / BASES_PER_BLOCK], s % BASES_PER_BLOCK);
    }
  }

  /** All blocks pass the high-bit constraints exactly when all lie below 2^250. */
  lemma AllWellFormedIff(blocks: seq<Felt>)
    ensures AllWellFormed(blocks) <==> forall j :: 0 <= j < |blocks| ==> blocks[j] < Pow2(BLOCK_BITS)
  {
    forall j | 0 <= j < |blocks| ensures BlockWellFormed(blocks[j]) <==> blocks[j] < Pow2(BLOCK_BITS) {
      BlockWellFormedIff(blocks[j]);
    }
  }

  /**
   Decoding the blocks packed from some bases gives those bases, followed by
   zero bases up to the next multiple of 125, and every packed block passes
   the high-bit constraints.
   */
  lemma PackRoundTrip(pairs: seq<BitPair>)
    ensures var decoded := DecodeBlocks(PackBlocks(pairs));
      && |decoded| == BASES_PER_BLOCK * ((|pairs| + BASES_PER_BLOCK - 1) / BASES_PER_BLOCK)
      && decoded[..|pairs|] == Bases(pairs)
      && forall s :: |pairs| <= s < |decoded| ==> decoded[s] == 0
    ensures AllWellFormed(PackBlocks(pairs))
  {
    var blocks := PackBlocks(pairs);
    var decoded := DecodeBlocks(blocks);
    forall s | 0 <= s < |decoded|
      ensures decoded[s] == if s < |pairs| then BaseOf(pairs[s]) else 0
    {
      PackedBaseAt(pairs, s);
    }
    forall j | 0 <= j < |blocks| ensures BlockWellFormed(blocks[j]) {
      BlockWellFormedIff(blocks[j]);
    }
  }

  /** All-zero blocks pass the high-bit constraints and decode to zero bases only. */
  lemma ZeroBlocksDecode(blocks: seq<Felt>)
    requires forall j :: 0 <= j < |blocks| ==> blocks[j] == 0
    ensures AllWellFormed(blocks)
    ensures forall s :: 0 <= s < |DecodeBlocks(blocks)| ==> DecodeBlocks(blocks)[s] == 0
  {
    ToBitsOfZero(MODULUS_BITS);
    forall s | 0 <= s < |DecodeBlocks(blocks)| ensures DecodeBlocks(blocks)[s] == 0 {
      DecodeBlocksAt(blocks, s);
      DecodeBlockAt(0, s % BASES_PER_BLOCK);
    }
  }

  /** Position `s` of the decoded packing: base `s` of the input, or a zero pad. */
  lemma PackedBaseAt(pairs: seq<BitPair>, s: nat)
    requires s < |DecodeBlocks(PackBlocks(pairs))|
    ensures DecodeBlocks(PackBlocks(pairs))[s] == if s < |pairs| then BaseOf(pairs[s]) else 0
  {
    var n := |pairs|;
    var bits := Flatten(pairs);
    var blocks := PackBlocks(pairs);
    var j, k := s / BASES_PER_BLOCK, s % BASES_PER_BLOCK;
    var start, end := BLOCK_BITS * j, Min(BLOCK_BITS * j + BLOCK_BITS, |bits|);
    var chunk := Chunk(bits, j);
    assert blocks[j] == PackChunk(chunk);
    DecodeBlocksAt(blocks, s);
    ChunkIndex(n, s, j, k, |chunk|);
    if s < n {
      ChunkPair(pairs, start, end, k, s);
      ChunkBase(chunk, k, pairs[s]);
    } else {
      ChunkBase(chunk, k, BitPair(false, false));
    }
  }

  /** Base `k` of a packed chunk is the pair at bits `2k`, `2k + 1`, or zero past the chunk's end. */
  lemma ChunkBase(chunk: seq<bool>, k: nat, x: BitPair)
    requires |chunk| <= BLOCK_BITS && k < BASES_PER_BLOCK && (2 * k < |chunk|) == (2 * k + 1 < |chunk|)
    requires 2 * k < |chunk| ==> chunk[2 * k] == x.lo && chunk[2 * k + 1] == x.hi
    ensures DecodeBlock(PackChunk(chunk))[k] == if 2 * k < |chunk| then BaseOf(x) else 0
  {
    var block := PackChunk(chunk);
    DecodeBlockAt(block, k);
    ChunkBitAt(chunk, 2 * k);
    ChunkBitAt(chunk, 2 * k + 1);
  }

  lemma PrefixSnoc(xs: seq<Felt>, k: nat)
    requires k < |xs|
    ensures xs[..k + 1] == xs[..k] + [xs[k]]
  {
  }

  lemma DecodeBlockAt(block: Felt, k: nat)
    requires k < BASES_PER_BLOCK
    ensures DecodeBlock(block)[k] == PairValue(FeltBits(block)[2 * k], FeltBits(block)[2 * k + 1])
  {
  }

  /** The two bits of base `s` sit at offsets `2k` and `2k + 1` of the chunk that starts at bit `2s - 2k`. */
  lemma ChunkPair(pairs: seq<BitPair>, start: nat, end: nat, k: nat, s: nat)
    requires start <= end <= |Flatten(pairs)| && 2 * k + 1 < end - start
    requires start + 2 * k == 2 * s && s < |pairs|
    ensures Flatten(pairs)[start..end][2 * k] == pairs[s].lo
    ensures Flatten(pairs)[start..end][2 * k + 1] == pairs[s].hi
  {
    var bits := Flatten(pairs);
    assert bits[start..end][2 * k] == bits[2 * s];
    assert bits[start..end][2 * k + 1] == bits[2 * s + 1];
  }

  /** Bit `t` of a packed chunk is bit `t` of the chunk, or zero past its end. */
  lemma ChunkBitAt(chunk: seq<bool>, t: nat)
    requires |chunk| <= BLOCK_BITS && t < MODULUS_BITS
    ensures FeltBits(PackChunk(chunk))[t] == (t < |chunk| && chunk[t])
  {
  }

  /** The arithmetic of locating base `s` in chunk `j` at offset `k`. */
  lemma ChunkIndex(n: nat, s: nat, j: nat, k: nat, len: nat)
    requires j == s / BASES_PER_BLOCK && k == s % BASES_PER_BLOCK
    requires BLOCK_BITS * j < 2 * n && len == Min(BLOCK_BITS, 2 * n - BLOCK_BITS * j)
    ensures BLOCK_BITS * j + 2 * k == 2 * s
    ensures (2 * k + 1 < len) == (2 * k < len) == (s < n)
  {
  }
}
