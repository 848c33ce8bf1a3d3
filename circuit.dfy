/**
 `AlignmentCircuit::generate_constraints`: decode the three packed inputs,
 build the two full-sequence products, run the trace loop over the decoded
 CIGAR symbols, and constrain the products of the two passes and the
 claimed score to agree. Synthesis either panics during witness generation
 or yields a constraint system, which the model reduces to whether every
 constraint holds for the given witness.
 */
module Circuit {
  import opened Field
  import opened Runtime
  import opened Encoding
  import opened Decoder
  import opened Memcheck
  import opened Trace

  /** The circuit's inputs: the packed blocks and plain base vectors of each sequence, and the claimed score. */
  datatype AlignmentCircuit = AlignmentCircuit(
    referenceFelts: seq<Felt>,
    referenceBases: seq<Usize>,
    targetFelts: seq<Felt>,
    targetBases: seq<Usize>,
    cigarFelts: seq<Felt>,
    cigarBases: seq<Usize>,
    alignmentScore: Usize)

  /** The plain vectors that the trace loop indexes. */
  function Witness(c: AlignmentCircuit): PlainWitness
  {
    PlainWitness(c.targetBases, c.referenceBases, c.cigarBases)
  }

  /**
   The public input `F::from_le_bytes_mod_order(alignment_score.to_le_bytes())`:
   the score reduced modulo P, which leaves every `usize` unchanged.
   */
  function InputScore(score: Usize): (f: Felt)
    ensures f == score
  {
    score % P
  }

  /** Every block of a sequence lies below 2^250. */
  predicate AllBelow(blocks: seq<Felt>)
  {
    forall j :: 0 <= j < |blocks| ==> blocks[j] < Pow2(BLOCK_BITS)
  }

  /**
   Every constraint of the system holds for the final trace state `s`: the
   high-bit constraints of all blocks, the match constraints, the two
   product equalities and the score equality.
   */
  predicate Satisfied(c: AlignmentCircuit, ch: Challenges, s: TraceState)
    requires |DecodeBlocks(c.referenceFelts)| <= |DecodeBlocks(c.targetFelts)|
  {
    var reference, target := DecodeBlocks(c.referenceFelts), DecodeBlocks(c.targetFelts);
    && AllWellFormed(c.referenceFelts) && AllWellFormed(c.targetFelts) && AllWellFormed(c.cigarFelts)
    && s.matchesHold
    && FullProduct(ch, target, |reference|) == s.targetProduct
    && FullProduct(ch, reference, |reference|) == s.referenceProduct
    && InputScore(c.alignmentScore) == s.score
  }

  /**
   Synthesis: a panic during witness generation, or whether the constraint
   system it builds is satisfied. The first product loop indexes the target
   by the reference's positions, then the trace loop runs over every decoded
   CIGAR symbol.
   */
  function Synthesize(c: AlignmentCircuit, ch: Challenges): Result<bool>
  {
    var reference, target, cigar := DecodeBlocks(c.referenceFelts), DecodeBlocks(c.targetFelts), DecodeBlocks(c.cigarFelts);
    if |target| < |reference| then Panicked(IndexOutOfBounds)
    else
      var s :- Run(ch, cigar, Witness(c), |cigar|);
      Ok(Satisfied(c, ch, s))
  }

  /** `generate_constraints`, followed by the check that the system it built is satisfied. */
  method GenerateConstraints(c: AlignmentCircuit, ch: Challenges) returns (r: Result<bool>)
    ensures r == Synthesize(c, ch)
  {
    var referenceBases, referenceOk := DecodeSequence(c.referenceFelts);
    var targetBases, targetOk := DecodeSequence(c.targetFelts);
    var cigarChars, cigarOk := DecodeSequence(c.cigarFelts);
    var products :- FullSequenceProducts(ch, referenceBases, targetBases);
    var state :- RunTrace(ch, cigarChars, Witness(c));
    var resScore := InputScore(c.alignmentScore);
    r := Ok(referenceOk && targetOk && cigarOk && state.matchesHold
      && products.0 == state.targetProduct && products.1 == state.referenceProduct
      && resScore == state.score);
  }

  /**
   Synthesis panics exactly when the decoded target is shorter than the
   decoded reference, or the plain vectors run short of the decoded CIGAR or
   hold a base above 3 or a plain CIGAR symbol above 2.
   */
  lemma PanicsIff(c: AlignmentCircuit, ch: Challenges)
    ensures var reference, target, cigar := DecodeBlocks(c.referenceFelts), DecodeBlocks(c.targetFelts), DecodeBlocks(c.cigarFelts);
      Synthesize(c, ch).Panicked? <==> |target| < |reference| || !StepsValid(Witness(c), |cigar|)
  {
    var cigar := DecodeBlocks(c.cigarFelts);
    RunOkIff(ch, cigar, Witness(c), |cigar|);
  }

  /** Without a panic, synthesis yields whether the constraints hold for the final state of the valid steps. */
  lemma SynthesizeValid(c: AlignmentCircuit, ch: Challenges)
    requires |DecodeBlocks(c.referenceFelts)| <= |DecodeBlocks(c.targetFelts)|
    requires StepsValid(Witness(c), |DecodeBlocks(c.cigarFelts)|)
    ensures var cigar := DecodeBlocks(c.cigarFelts);
      Synthesize(c, ch) == Ok(Satisfied(c, ch, States(ch, cigar, Witness(c), |cigar|)))
  {
    var cigar := DecodeBlocks(c.cigarFelts);
    RunStates(ch, cigar, Witness(c), |cigar|);
  }

  /** An accepted instance did not panic, and its constraints hold for the final state of the valid steps. */
  lemma AcceptedState(c: AlignmentCircuit, ch: Challenges)
    requires Synthesize(c, ch) == Ok(true)
    ensures |DecodeBlocks(c.referenceFelts)| <= |DecodeBlocks(c.targetFelts)|
    ensures StepsValid(Witness(c), |DecodeBlocks(c.cigarFelts)|)
    ensures var cigar := DecodeBlocks(c.cigarFelts);
      Satisfied(c, ch, States(ch, cigar, Witness(c), |cigar|))
  {
    PanicsIff(c, ch);
    SynthesizeValid(c, ch);
  }

  /** In an accepted instance every block of every sequence lies below 2^250. */
  lemma AcceptedBlocksBelow(c: AlignmentCircuit, ch: Challenges)
    requires Synthesize(c, ch) == Ok(true)
    ensures AllBelow(c.referenceFelts) && AllBelow(c.targetFelts) && AllBelow(c.cigarFelts)
  {
    AcceptedState(c, ch);
    AllWellFormedIff(c.referenceFelts);
    AllWellFormedIff(c.targetFelts);
    AllWellFormedIff(c.cigarFelts);
  }

  /** In an accepted instance every match step read equal plain values. */
  lemma AcceptedMatches(c: AlignmentCircuit, ch: Challenges)
    requires Synthesize(c, ch) == Ok(true)
    ensures var cigar := DecodeBlocks(c.cigarFelts);
      && StepsValid(Witness(c), |cigar|)
      && forall j :: 0 <= j < |cigar| && cigar[j] == MATCH ==> c.targetBases[j] == c.referenceBases[j]
  {
    var cigar := DecodeBlocks(c.cigarFelts);
    AcceptedState(c, ch);
    StatesMatches(ch, cigar, Witness(c), |cigar|);
  }

  /**
   In an accepted instance the claimed score is the number of insertions and
   deletions among the decoded symbols, modulo P, so exactly that number
   whenever there are fewer than P symbols.
   */
  lemma AcceptedScore(c: AlignmentCircuit, ch: Challenges)
    requires Synthesize(c, ch) == Ok(true)
    ensures var cigar := DecodeBlocks(c.cigarFelts);
      && c.alignmentScore == CountOf(cigar, SCORED) % P
      && (|cigar| < P ==> c.alignmentScore == CountOf(cigar, SCORED))
  {
    var cigar := DecodeBlocks(c.cigarFelts);
    AcceptedState(c, ch);
    ScoreCounts(ch, cigar, Witness(c));
  }

  /** The final score of a valid run is the number of scored symbols, reduced modulo P. */
  lemma ScoreCounts(ch: Challenges, cigar: seq<Felt>, w: PlainWitness)
    requires StepsValid(w, |cigar|)
    ensures States(ch, cigar, w, |cigar|).score == CountOf(cigar, SCORED) % P
    ensures |cigar| < P ==> States(ch, cigar, w, |cigar|).score == CountOf(cigar, SCORED)
  {
    StatesScore(ch, cigar, w, |cigar|);
    assert cigar[..|cigar|] == cigar;
    FeltOfMod(CountOf(cigar, SCORED));
  }

  /**
   An honest witness: blocks below 2^250, valid plain vectors, equal reads
   on match steps, a claimed score equal to the number of insertions and
   deletions, each side's reads taken at that side's cursor, and both
   cursors ending at the reference's length.
   */
  predicate HonestWitness(c: AlignmentCircuit)
  {
    var reference, target, cigar := DecodeBlocks(c.referenceFelts), DecodeBlocks(c.targetFelts), DecodeBlocks(c.cigarFelts);
    && AllBelow(c.referenceFelts) && AllBelow(c.targetFelts) && AllBelow(c.cigarFelts)
    && |reference| <= |target|
    && StepsValid(Witness(c), |cigar|)
    && (forall j :: 0 <= j < |cigar| && cigar[j] == MATCH ==> c.targetBases[j] == c.referenceBases[j])
    && c.alignmentScore == CountOf(cigar, SCORED)
    && HonestReads(cigar, Witness(c), TargetSide, target, |cigar|)
    && HonestReads(cigar, Witness(c), ReferenceSide, reference, |cigar|)
    && CountOf(cigar, Consumes(TargetSide)) == |reference|
    && CountOf(cigar, Consumes(ReferenceSide)) == |reference|
  }

  /** Completeness: an honest witness satisfies every constraint, whatever the challenges. */
  lemma HonestAccepted(c: AlignmentCircuit, ch: Challenges)
    requires HonestWitness(c)
    ensures Synthesize(c, ch) == Ok(true)
  {
    var reference, target, cigar := DecodeBlocks(c.referenceFelts), DecodeBlocks(c.targetFelts), DecodeBlocks(c.cigarFelts);
    var w := Witness(c);
    var s := States(ch, cigar, w, |cigar|);
    SynthesizeValid(c, ch);
    AllWellFormedIff(c.referenceFelts);
    AllWellFormedIff(c.targetFelts);
    AllWellFormedIff(c.cigarFelts);
    StatesMatches(ch, cigar, w, |cigar|);
    ScoreCounts(ch, cigar, w);
    HonestProducts(ch, cigar, w, reference, target);
    assert Satisfied(c, ch, s);
  }

  /** Honest reads on both sides, with both cursors ending at the reference's length, make the two products agree. */
  lemma HonestProducts(ch: Challenges, cigar: seq<Felt>, w: PlainWitness, reference: seq<Felt>, target: seq<Felt>)
    requires |reference| <= |target| && StepsValid(w, |cigar|)
    requires HonestReads(cigar, w, TargetSide, target, |cigar|) && HonestReads(cigar, w, ReferenceSide, reference, |cigar|)
    requires CountOf(cigar, Consumes(TargetSide)) == |reference| && CountOf(cigar, Consumes(ReferenceSide)) == |reference|
    ensures States(ch, cigar, w, |cigar|).targetProduct == FullProduct(ch, target, |reference|)
    ensures States(ch, cigar, w, |cigar|).referenceProduct == FullProduct(ch, reference, |reference|)
  {
    assert cigar[..|cigar|] == cigar;
    HonestReadsProduct(ch, cigar, w, TargetSide, target, |cigar|);
    HonestReadsProduct(ch, cigar, w, ReferenceSide, reference, |cigar|);
  }

  /**
   The instance the benchmark driver proves: one encoded sequence used as
   both reference and target, an all-zero (all-match) CIGAR of as many
   plain symbols as there are bases and as many zero blocks as the bases
   fill, and a claimed score of zero.
   */
  function IdenticalInstance(pairs: seq<BitPair>): AlignmentCircuit
  {
    var blocks, bases := PackBlocks(pairs), Bases(pairs);
    var cigarBlocks := (|pairs| + BASES_PER_BLOCK - 1) / BASES_PER_BLOCK;
    AlignmentCircuit(blocks, bases, blocks, bases, seq(cigarBlocks, j => 0), seq(|pairs|, j => 0), 0)
  }

  /**
   The identical-sequence instance is accepted exactly when the number of
   bases is a multiple of 125; otherwise the decoded zero padding of the
   last block sends the trace loop past the end of the plain vectors.
   */
  lemma IdenticalInstanceOutcome(pairs: seq<BitPair>, ch: Challenges)
    ensures Synthesize(IdenticalInstance(pairs), ch) ==
      if |pairs| % BASES_PER_BLOCK == 0 then Ok(true) else Panicked(IndexOutOfBounds)
  {
    if |pairs| % BASES_PER_BLOCK == 0 {
      IdenticalAccepted(pairs, ch);
    } else {
      IdenticalPanics(pairs, ch);
    }
  }

  /** With a whole number of blocks, the identical instance satisfies every constraint. */
  lemma IdenticalAccepted(pairs: seq<BitPair>, ch: Challenges)
    requires |pairs| % BASES_PER_BLOCK == 0
    ensures Synthesize(IdenticalInstance(pairs), ch) == Ok(true)
  {
    IdenticalHonest(pairs);
    HonestAccepted(IdenticalInstance(pairs), ch);
  }

  /** With a whole number of blocks, the identical instance is an honest witness. */
  lemma IdenticalHonest(pairs: seq<BitPair>)
    requires |pairs| % BASES_PER_BLOCK == 0
    ensures HonestWitness(IdenticalInstance(pairs))
  {
    IdenticalDecoded(pairs);
    SelfAlignmentHonest(IdenticalInstance(pairs));
  }

  /**
   Aligning a sequence with itself by matches only is an honest witness: the
   target is the reference, the decoded CIGAR and the plain one are all
   matches, one per base, and the claimed score is zero.
   */
  lemma SelfAlignmentHonest(c: AlignmentCircuit)
    requires c.targetFelts == c.referenceFelts && c.targetBases == c.referenceBases
    requires AllBelow(c.referenceFelts) && AllBelow(c.cigarFelts)
    requires DecodeBlocks(c.referenceFelts) == c.referenceBases
    requires |DecodeBlocks(c.cigarFelts)| == |c.referenceBases| == |c.cigarBases|
    requires forall s :: 0 <= s < |c.cigarBases| ==> DecodeBlocks(c.cigarFelts)[s] == MATCH && c.cigarBases[s] == 0
    requires c.alignmentScore == 0
    ensures HonestWitness(c)
  {
    var decoded, cigar := DecodeBlocks(c.referenceFelts), DecodeBlocks(c.cigarFelts);
    var w := Witness(c);
    DecodedBasesBounded(c.referenceFelts);
    assert StepsValid(w, |cigar|);
    AllMatchHonest(cigar, w, TargetSide, decoded);
    AllMatchHonest(cigar, w, ReferenceSide, decoded);
    MatchKinds();
    CountOfUniform(cigar, SCORED, MATCH);
  }

  /** Decoding the identical instance with a whole number of blocks gives back its bases and an all-match CIGAR. */
  lemma IdenticalDecoded(pairs: seq<BitPair>)
    requires |pairs| % BASES_PER_BLOCK == 0
    ensures var c := IdenticalInstance(pairs);
      && AllBelow(c.referenceFelts) && AllBelow(c.cigarFelts)
      && DecodeBlocks(c.referenceFelts) == Bases(pairs)
      && |DecodeBlocks(c.cigarFelts)| == |pairs|
      && forall s :: 0 <= s < |pairs| ==> DecodeBlocks(c.cigarFelts)[s] == MATCH && c.cigarBases[s] == 0
  {
    var n := |pairs|;
    PackedWhole(pairs);
    ZeroCigar(n, (n + BASES_PER_BLOCK - 1) / BASES_PER_BLOCK);
  }

  /** The packed blocks of a whole number of blocks lie below 2^250 and decode to exactly the bases. */
  lemma PackedWhole(pairs: seq<BitPair>)
    requires |pairs| % BASES_PER_BLOCK == 0
    ensures AllBelow(PackBlocks(pairs)) && DecodeBlocks(PackBlocks(pairs)) == Bases(pairs)
  {
    var decoded := DecodeBlocks(PackBlocks(pairs));
    PackRoundTrip(pairs);
    WholeBlocks(|pairs|);
    assert decoded == decoded[..|pairs|];
  }

  /** Zero CIGAR blocks covering `n` symbols decode to `n` matches. */
  lemma ZeroCigar(n: nat, m: nat)
    requires n % BASES_PER_BLOCK == 0 && m == (n + BASES_PER_BLOCK - 1) / BASES_PER_BLOCK
    ensures var blocks: seq<Felt> := seq(m, j => 0);
      && AllBelow(blocks) && |DecodeBlocks(blocks)| == n
      && forall s :: 0 <= s < n ==> DecodeBlocks(blocks)[s] == MATCH
  {
    var blocks: seq<Felt> := seq(m, j => 0);
    ZeroBlocksDecode(blocks);
    AllWellFormedIff(blocks);
    WholeBlocks(n);
  }

  lemma WholeBlocks(n: nat)
    requires n % BASES_PER_BLOCK == 0
    ensures BASES_PER_BLOCK * ((n + BASES_PER_BLOCK - 1) / BASES_PER_BLOCK) == n
  {
  }

  /** A CIGAR of matches only reads honestly from a side whose plain vector is the sequence itself. */
  lemma AllMatchHonest(cigar: seq<Felt>, w: PlainWitness, side: Side, bases: seq<Felt>)
    requires StepsValid(w, |cigar|) && |bases| == |cigar| && PlainBases(w, side)[..|cigar|] == bases
    requires forall s :: 0 <= s < |cigar| ==> cigar[s] == MATCH
    ensures HonestReads(cigar, w, side, bases, |cigar|)
    ensures CountOf(cigar, Consumes(side)) == |cigar|
  {
    forall j | 0 <= j < |cigar| ensures HonestRead(cigar, w, side, bases, j) {
      MatchKinds();
      CountOfUniform(cigar[..j], Consumes(side), MATCH);
      assert PlainBases(w, side)[j] == PlainBases(w, side)[..|cigar|][j];
    }
    MatchKinds();
    CountOfUniform(cigar, Consumes(side), MATCH);
  }

  /** With a partial last block, the trace loop reads past the plain vectors and panics. */
  lemma IdenticalPanics(pairs: seq<BitPair>, ch: Challenges)
    requires |pairs| % BASES_PER_BLOCK != 0
    ensures Synthesize(IdenticalInstance(pairs), ch) == Panicked(IndexOutOfBounds)
  {
    var c := IdenticalInstance(pairs);
    IdenticalShape(pairs);
    PastPlainPanics(ch, DecodeBlocks(c.cigarFelts), Witness(c), |pairs|);
  }

  /** The identical instance with a partial last block decodes more CIGAR symbols than it has plain bases. */
  lemma IdenticalShape(pairs: seq<BitPair>)
    requires |pairs| % BASES_PER_BLOCK != 0
    ensures var c := IdenticalInstance(pairs);
      && c.targetFelts == c.referenceFelts && |c.targetBases| == |pairs|
      && StepsValid(Witness(c), |pairs|) && |pairs| < |DecodeBlocks(c.cigarFelts)|
  {
    PartialBlocks(|pairs|);
  }

  /** Rounding a length that is not a multiple of 125 up to whole blocks adds positions. */
  lemma PartialBlocks(n: nat)
    requires n % BASES_PER_BLOCK != 0
    ensures n < BASES_PER_BLOCK * ((n + BASES_PER_BLOCK - 1) / BASES_PER_BLOCK)
  {
  }

  /** A trace longer than its valid plain target vector panics on the first step past that vector. */
  lemma PastPlainPanics(ch: Challenges, cigar: seq<Felt>, w: PlainWitness, n: nat)
    requires n < |cigar| && StepsValid(w, n) && |w.target| == n
    ensures Run(ch, cigar, w, |cigar|) == Panicked(IndexOutOfBounds)
  {
    RunStates(ch, cigar, w, n);
    assert Run(ch, cigar, w, n + 1) == Panicked(IndexOutOfBounds);
    RunPanicPersists(ch, cigar, w, n + 1, |cigar|);
  }

  /** The benchmark driver's instance of 8000 bases, 64 blocks per sequence, is accepted. */
  lemma BenchmarkAccepted(pairs: seq<BitPair>, ch: Challenges)
    requires |pairs| == SEQUENCE_BASE_PAIRS
    ensures |IdenticalInstance(pairs).referenceFelts| == SEQUENCE_BLOCK_LENGTH
    ensures Synthesize(IdenticalInstance(pairs), ch) == Ok(true)
  {
    assert |pairs| == 8000 && (|pairs| + BASES_PER_BLOCK - 1) / BASES_PER_BLOCK == 64;
    assert |pairs| % BASES_PER_BLOCK == 0;
    IdenticalAccepted(pairs, ch);
  }
}
