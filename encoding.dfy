/**
 The sequence encoder of the benchmark driver: every base is drawn as two
 booleans, its plain value is `x[1] * 2 + x[0]`, and the booleans of all
 bases, flattened in order, are cut into chunks of 250 bits that each become
 one field element (least significant bit first, 125 bases per block).
 Also `usize_to_felt`, which lifts a plain base into the field.
 */
module Encoding {
  import opened Field
  import opened Runtime

  /** `BASES_PER_BLOCK`: bases packed into one field element. */
  const BASES_PER_BLOCK: nat := 125

  /** Bits of a block that carry bases: two per base. */
  const BLOCK_BITS: nat := 250

  /** `SEQUENCE_BLOCK_LENGTH`: blocks per sequence in the benchmark. */
  const SEQUENCE_BLOCK_LENGTH: nat := 64

  /** `SEQUENCE_BASE_PAIRS`: bases per sequence in the benchmark. */
  const SEQUENCE_BASE_PAIRS: nat := SEQUENCE_BLOCK_LENGTH * BASES_PER_BLOCK

  /** The two booleans drawn for one base, `x[0]` and `x[1]`. */
  datatype BitPair = BitPair(lo: bool, hi: bool)

  /** The plain value of a base: `(x[1] as usize) * 2 + (x[0] as usize)`. */
  function BaseOf(x: BitPair): Usize
  {
    Bit(x.hi) * 2 + Bit(x.lo)
  }

  /** The plain base list returned beside the blocks. */
  function Bases(pairs: seq<BitPair>): (bases: seq<Usize>)
    ensures |bases| == |pairs|
    ensures forall i :: 0 <= i < |pairs| ==> bases[i] == BaseOf(pairs[i]) && bases[i] <= 3
  {
    seq(|pairs|, i requires 0 <= i < |pairs| => BaseOf(pairs[i]))
  }

  /** `flatten` of the per-base boolean pairs: `x[0]` then `x[1]` for every base. */
  function Flatten(pairs: seq<BitPair>): (bits: seq<bool>)
    ensures |bits| == 2 * |pairs|
    ensures forall k :: 0 <= k < |pairs| ==> bits[2 * k] == pairs[k].lo && bits[2 * k + 1] == pairs[k].hi
  {
    if pairs == [] then [] else [pairs[0].lo, pairs[0].hi] + Flatten(pairs[1..])
  }

  function Min(a: int, b: int): int { if a <= b then a else b }

  /** Chunk `j` of 250 bits, cut short at the end of `bits`. */
  function Chunk(bits: seq<bool>, j: nat): (chunk: seq<bool>)
    requires BLOCK_BITS * j < |bits|
    ensures 0 < |chunk| <= BLOCK_BITS
  {
    bits[BLOCK_BITS * j .. Min(BLOCK_BITS * j + BLOCK_BITS, |bits|)]
  }

  /**
   `chunks(BASES_PER_BLOCK * 2)`: every chunk but the last holds exactly 250
   bits, the last one between 1 and 250, and read one after the other the
   chunks give back `bits`.
   */
  function Chunks(bits: seq<bool>): (chunks: seq<seq<bool>>)
    ensures |chunks| == (|bits| + BLOCK_BITS - 1) / BLOCK_BITS
    ensures forall j :: 0 <= j < |chunks| ==> 0 < |chunks[j]| <= BLOCK_BITS
    ensures forall j :: 0 <= j < |chunks| - 1 ==> |chunks[j]| == BLOCK_BITS
    ensures forall t :: 0 <= t < |bits| ==>
      t / BLOCK_BITS < |chunks| && t % BLOCK_BITS < |chunks[t / BLOCK_BITS]| && chunks[t / BLOCK_BITS][t % BLOCK_BITS] == bits[t]
    ensures forall j :: 0 <= j < |chunks| ==> BLOCK_BITS * j < |bits| && chunks[j] == Chunk(bits, j)
  {
    var count := (|bits| + BLOCK_BITS - 1) / BLOCK_BITS;
    var chunks := seq(count, j requires 0 <= j < count => Chunk(bits, j));
    forall j | 0 <= j < count - 1 ensures |chunks[j]| == BLOCK_BITS {
      ChunkFull(|bits|, j);
    }
    forall t | 0 <= t < |bits|
      ensures t / BLOCK_BITS < count && t % BLOCK_BITS < |chunks[t / BLOCK_BITS]|
      ensures chunks[t / BLOCK_BITS][t % BLOCK_BITS] == bits[t]
    {
      ChunkOf(|bits|, t);
    }
    chunks
  }

  /** A chunk before the last one ends inside the bits. */
  lemma ChunkFull(n: nat, j: nat)
    requires j + 1 < (n + BLOCK_BITS - 1) / BLOCK_BITS
    ensures BLOCK_BITS * j + BLOCK_BITS <= n
  {
  }

  /** Bit `t` sits at offset `t % 250` of chunk `t / 250`, which exists and reaches that far. */
  lemma ChunkOf(n: nat, t: nat)
    requires t < n
    ensures t / BLOCK_BITS < (n + BLOCK_BITS - 1) / BLOCK_BITS
    ensures BLOCK_BITS * (t / BLOCK_BITS) + t % BLOCK_BITS == t
    ensures t % BLOCK_BITS < Min(BLOCK_BITS * (t / BLOCK_BITS) + BLOCK_BITS, n) - BLOCK_BITS * (t / BLOCK_BITS)
  {
  }

  /**
   One chunk padded with five zero bits and read as a big integer
   (`BigInt::from_bits_le`), then as a field element (`Fr::from_bigint`).
   The value lies below 2^250 < P, so the `unwrap` never fails, and the
   field element's bits are the chunk followed by zeros.
   */
  function PackChunk(chunk: seq<bool>): (block: Felt)
    requires |chunk| <= BLOCK_BITS
    ensures block < Pow2(BLOCK_BITS)
    ensures FeltBits(block) == chunk + Zeros(MODULUS_BITS - |chunk|)
  {
    var v := FromBitsLe(chunk + Zeros(5));
    PackedValue(chunk);
    v
  }

  lemma PackedValue(chunk: seq<bool>)
    requires |chunk| <= BLOCK_BITS
    ensures FromBitsLe(chunk + Zeros(5)) == FromBitsLe(chunk) < Pow2(BLOCK_BITS) < P
    ensures ToBitsLe(FromBitsLe(chunk), MODULUS_BITS) == chunk + Zeros(MODULUS_BITS - |chunk|)
  {
    FromBitsLeZeros(chunk, 5);
    Pow2Monotone(|chunk|, BLOCK_BITS);
    ModulusBounds();
    ToBitsOfFromBits(chunk, MODULUS_BITS);
  }

  /** The blocks `generate_random_sequence` returns for the drawn pairs. */
  function PackBlocks(pairs: seq<BitPair>): (blocks: seq<Felt>)
    ensures |blocks| == (|pairs| + BASES_PER_BLOCK - 1) / BASES_PER_BLOCK
    ensures forall j :: 0 <= j < |blocks| ==> blocks[j] < Pow2(BLOCK_BITS)
  {
    var chunks := Chunks(Flatten(pairs));
    seq(|chunks|, j requires 0 <= j < |chunks| => PackChunk(chunks[j]))
  }

  /** `usize_to_felt`: a base 0..3 as a field element; anything larger panics. */
  function UsizeToFelt(base: Usize): (r: Result<Felt>)
    ensures r.Ok? <==> base <= 3
    ensures r.Ok? ==> r.value == base
    ensures r.Panicked? ==> r.reason == BadBaseNumber
  {
    match base
    case 0 => Ok(0)
    case 1 => Ok(1)
    case 2 => Ok(Add(1, 1))
    case 3 => Ok(Add(Add(1, 1), 1))
    case _ => Panicked(BadBaseNumber)
  }
}
