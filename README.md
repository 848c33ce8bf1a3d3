# Alignment circuit model

This project models the sequence-alignment constraint system of the
`alignment-circuits` benchmark. A prover claims that a target DNA sequence
aligns to a reference sequence under a CIGAR-like edit string with a given
score. Both sequences and the CIGAR string are packed 125 symbols to a
BLS12-381 scalar-field element. The circuit does four things:

- It decodes every block into 2-bit symbols and forces the five top bits of
  each block to zero.
- It builds a memory-checking fingerprint product for each sequence over the
  positions `0 .. len(reference)` of the decoded reference. Target positions
  past that length are never fingerprinted, and a decoded target shorter
  than the decoded reference panics out of bounds.
- It replays the CIGAR string step by step. Insertions and deletions add to
  the score, matches demand equal bases, and each step that consumes from a
  sequence multiplies the fingerprint of the value read into that
  sequence's trace product.
- It constrains each full product to equal its trace product, and the
  public score to equal the computed one.

The project also models:

- the packing of random base pairs into blocks from the benchmark driver;
- `usize_to_felt`;
- the three `map_field*` input-allocation helpers of `alignment-circuits-dorian`.

Modules:

- `Field`: concrete arithmetic modulo the `Fr` modulus, `to_bits_le`, and
  the bit/integer conversions.
- `Runtime`: `Result`, with the panics of the Rust code as error values.
- `Encoding`: the benchmark's base-pair packing, and `usize_to_felt`.
- `Decoder`: the in-circuit block decoder and its high-bit constraints.
- `Memcheck`: the fingerprints and the full-sequence products.
- `Trace`: the step loop, as a state machine (`Run`, `States`) and as a
  method (`RunTrace`).
- `Circuit`: the whole of `generate_constraints` as a function `Synthesize`
  and a method `GenerateConstraints` proved equal to it. The constraint
  system is satisfied exactly when `Synthesize` returns `Ok(true)`. It
  returns `Panicked(_)` when the Rust code panics while generating the
  witness.
- `Alloc`: `map_field`, `map_field_vec` and `map_field_double_vec`. These
  are methods on a class holding the mutable input map, each proved equal to
  a pure map function.

In the model, the constraint system is decided on concrete values.
`Satisfied` is the conjunction of every enforced equality. The Poseidon
challenges `c0` and `c1` are parameters (`Challenges`), so every property
about satisfaction holds for every choice of challenges.

The step loop is modelled as written:

- The values read at step `i` are always the plain bases at index `i`, not
  at the field cursors.
- The plain `usize` cursors are updated but never read.
- A plain CIGAR symbol above 2 panics.
- A decoded CIGAR symbol of 3 leaves every accumulator unchanged.

As a consequence, `HonestAccepted` needs the reads at index `i` to coincide
with the bases at the cursor positions (`HonestReads`). At every step `i`
that consumes from a side, the plain vector of that side must hold, at index
`i`, the decoded base the side's cursor points to. In addition, both cursors
must end at the decoded reference's length, so insertions and deletions
are equal in number. The benchmark driver's all-match self-alignment is one
such witness, but not the only one: alignments with insertions and deletions
qualify too, as long as their step-indexed plain bases meet that condition
and the public score is their number of insertions and deletions.

The reference definitions the contracts are stated about map to the source
as follows:

- `Field.FeltBits` is `to_bits_le` (circuit.rs:126), and `Field.FromBitsLe` is
  `BigInt::from_bits_le` (circuit.rs:240).
- `Decoder.DecodeBlocks` is the decoder loops (circuit.rs:123-161).
- `Memcheck.FullProduct` is the full-sequence product (circuit.rs:163-170).
- `Trace.Run` is the step loop (circuit.rs:185-212).
- `Circuit.Synthesize` is `generate_constraints` together with the
  satisfaction of its constraints (circuit.rs:88-221).
- `Alloc.VecKey` is the `format!("{}.{}", name, i)` key (alloc.rs:16, 23).
- `Alloc.VecInserted` is the map after `map_field_vec` (alloc.rs:14-17), and
  `Alloc.DoubleVecInserted` is the map after `map_field_double_vec`
  (alloc.rs:21-24).

## Model

| member | source | states |
|---|---|---|
| Field.FeltOfMod | alignment-circuits/src/bin/circuit.rs:165-169 | a counter stepped by adding the field's one n times equals n mod P |
| Field.ToBitsOfFromBits | alignment-circuits/src/bin/circuit.rs:240 | reading bits as a little-endian integer, then decomposing it into n bits, gives the bits followed by zeros |
| Field.HighBitsZero | alignment-circuits/src/bin/circuit.rs:132-134 | the bits of v from position m on are all zero exactly when v < 2^m |
| Field.ModulusBounds | alignment-circuits/src/bin/circuit.rs:240 | 2^250 < P < 2^255, so a 250-bit chunk always converts to a field element and `unwrap` never fails |
| Encoding.Bases | alignment-circuits/src/bin/circuit.rs:227 | one plain base per drawn pair, equal to `2*x[1] + x[0]` and at most 3 |
| Encoding.Flatten | alignment-circuits/src/bin/circuit.rs:230-233 | the flattened bits are `x[0]`, `x[1]` of each pair, in order, two per pair |
| Encoding.Chunks | alignment-circuits/src/bin/circuit.rs:234 | the bits are cut into ceil(len/250) chunks; every chunk but the last holds exactly 250 bits, the last 1 to 250; bit t is bit t mod 250 of chunk t div 250, so the chunks read in order give back the bits |
| Encoding.PackChunk | alignment-circuits/src/bin/circuit.rs:235-240 | the padded chunk's value is below 2^250 and its 255 field bits are the chunk followed by zeros |
| Encoding.PackBlocks | alignment-circuits/src/bin/circuit.rs:229-241 | ceil(n/125) blocks, each below 2^250 |
| Encoding.UsizeToFelt | alignment-circuits/src/bin/circuit.rs:245-253 | bases 0..3 map to the same field value; any larger base panics with the bad-base error |
| Decoder.DecodeBlocksAt | alignment-circuits/src/bin/circuit.rs:125-131 | decoded symbol s is symbol s mod 125 of block s div 125 |
| Decoder.DecodeBlockDigit | alignment-circuits/src/bin/circuit.rs:128-130 | symbol k of a block is base-4 digit k of the block's value, at most 3 |
| Decoder.BlockWellFormedIff | alignment-circuits/src/bin/circuit.rs:132-134 | the high-bit constraints of a block hold exactly when the block is below 2^250 |
| Decoder.DecodeSequence | alignment-circuits/src/bin/circuit.rs:123-161 | the decoding loop returns 125 symbols per block, each at most 3, equal to the decoded sequence; its flag is true exactly when every block is below 2^250 |
| Decoder.DecodedBasesBounded | alignment-circuits/src/bin/circuit.rs:128-130 | every decoded symbol is at most 3 |
| Decoder.AllWellFormedIff | alignment-circuits/src/bin/circuit.rs:132-134 | every block's high-bit constraints hold exactly when every block is below 2^250 |
| Decoder.PackRoundTrip | alignment-circuits/src/bin/circuit.rs:224-243 | decoding packed pairs gives back the plain bases, followed by zeros up to the block boundary, and the packed blocks pass the high-bit constraints |
| Decoder.PackedBaseAt | alignment-circuits/src/bin/circuit.rs:224-243 | decoded symbol s of the packed pairs is the base of pair s, or 0 past the last pair |
| Decoder.ZeroBlocksDecode | alignment-circuits/src/bin/circuit.rs:125-161 | zero blocks are well formed and decode to zero symbols |
| Memcheck.FullProductPrefix | alignment-circuits/src/bin/circuit.rs:166-170 | the full product over n positions depends only on the first n values |
| Memcheck.FullSequenceProducts | alignment-circuits/src/bin/circuit.rs:163-170 | the loop succeeds exactly when the target is at least as long as the decoded reference; it then returns the fingerprint products of both over the reference's positions, and otherwise panics out of bounds |
| Trace.Advance | alignment-circuits/src/bin/circuit.rs:186-205 | one circuit step: each cursor moves and each product takes the fingerprint at that cursor exactly on the symbols that consume from its side; the score grows on insertion and deletion; a match requires equal reads; symbol 3 changes nothing |
| Trace.PlainAdvance | alignment-circuits/src/bin/circuit.rs:206-211 | plain symbols 0, 1 and 2 advance the plain cursors; any other symbol panics with the CIGAR-character error |
| Trace.RunOkIff | alignment-circuits/src/bin/circuit.rs:185-212 | the step loop runs n steps without a panic exactly when the plain vectors cover them with bases at most 3 and plain symbols at most 2 |
| Trace.StepAtOkIff | alignment-circuits/src/bin/circuit.rs:194-211 | one step panics exactly when an index is out of bounds, a base exceeds 3 or a plain symbol exceeds 2 |
| Trace.RunPanicPersists | alignment-circuits/src/bin/circuit.rs:185-212 | once the loop has panicked, later steps do not change the outcome |
| Trace.RunStates | alignment-circuits/src/bin/circuit.rs:185-212 | a valid run ends in the state machine's state after n steps |
| Trace.StatesScore | alignment-circuits/src/bin/circuit.rs:189 | after n steps the score is the number of insertions and deletions among the first n decoded symbols, counted in the field |
| Trace.StatesCursor | alignment-circuits/src/bin/circuit.rs:204-205 | after n steps each field cursor counts the decoded symbols that consume from its side, in the field |
| Trace.StatesPlainIndex | alignment-circuits/src/bin/circuit.rs:206-211 | after n steps each plain cursor counts the plain symbols that consume from its side |
| Trace.StatesMatches | alignment-circuits/src/bin/circuit.rs:198-199 | the match constraints of the first n steps hold exactly when every match step read equal bases |
| Trace.CursorsAgree | alignment-circuits/src/bin/circuit.rs:204-211 | when the plain and decoded CIGAR symbols agree and n < P, each field cursor equals its plain cursor and is at most n |
| Trace.HonestReadsProduct | alignment-circuits/src/bin/circuit.rs:201-202 | when every consuming step reads the base at its cursor, the trace product is the full product over the consumed count |
| Trace.ProductStep | alignment-circuits/src/bin/circuit.rs:201-202 | one step keeps the trace product equal to the full product over the consumed count |
| Trace.CountOfUniform | alignment-circuits/src/bin/circuit.rs:185-212 | in a string made of one symbol, the count is the whole length or zero |
| Trace.CountOfMonotone | alignment-circuits/src/bin/circuit.rs:185-212 | counts over prefixes never decrease and never exceed the prefix length |
| Trace.TraceStep | alignment-circuits/src/bin/circuit.rs:186-211 | the loop body equals one step of the state machine, panics included |
| Trace.RunTrace | alignment-circuits/src/bin/circuit.rs:178-212 | the loop equals the state machine run over all decoded symbols, and succeeds exactly when the plain vectors are valid |
| Circuit.InputScore | alignment-circuits/src/bin/circuit.rs:217 | the public score is a 64-bit `usize`, below P, so its little-endian bytes reduced mod P give the score itself |
| Circuit.GenerateConstraints | alignment-circuits/src/bin/circuit.rs:88-221 | the whole synthesis equals the functional model, including which panics occur |
| Circuit.PanicsIff | alignment-circuits/src/bin/circuit.rs:166-211 | synthesis panics exactly when the decoded target is shorter than the decoded reference or the plain vectors are invalid |
| Circuit.SynthesizeValid | alignment-circuits/src/bin/circuit.rs:163-218 | without panics, the verdict is the satisfaction of every constraint in the final step-machine state |
| Circuit.AcceptedState | alignment-circuits/src/bin/circuit.rs:132-218 | an accepted instance has no panic and satisfies every constraint |
| Circuit.AcceptedBlocksBelow | alignment-circuits/src/bin/circuit.rs:132-160 | an accepted instance has every block of every sequence below 2^250 |
| Circuit.AcceptedMatches | alignment-circuits/src/bin/circuit.rs:194-199 | an accepted instance has equal target and reference bases at every decoded match |
| Circuit.AcceptedScore | alignment-circuits/src/bin/circuit.rs:217-218 | an accepted instance's score is the number of insertions and deletions mod P, exactly that number for fewer than P symbols |
| Circuit.ScoreCounts | alignment-circuits/src/bin/circuit.rs:189 | the final score is the indel count mod P |
| Circuit.HonestAccepted | alignment-circuits/src/bin/circuit.rs:163-218 | a well-formed witness whose consuming steps read the bases at the cursors, whose match reads agree, whose score is the indel count and which consumes the reference exactly on both sides is accepted |
| Circuit.HonestProducts | alignment-circuits/src/bin/circuit.rs:163-215 | with honest reads and both cursors ending at the reference length, each trace product equals its full-sequence product |
| Circuit.IdenticalInstanceOutcome | alignment-circuits/src/bin/circuit.rs:258-276 | aligning a packed sequence against itself with an all-zero CIGAR is accepted when the length is a multiple of 125, and otherwise panics out of bounds |
| Circuit.IdenticalAccepted | alignment-circuits/src/bin/circuit.rs:258-276 | the self-alignment with whole blocks is accepted |
| Circuit.IdenticalPanics | alignment-circuits/src/bin/circuit.rs:185-195 | with a partial last block, the decoded zero padding sends the step loop past the plain vectors |
| Circuit.IdenticalDecoded | alignment-circuits/src/bin/circuit.rs:258-262 | with whole blocks, the packed sequence decodes to its plain bases and the zero CIGAR blocks decode to matches |
| Circuit.SelfAlignmentHonest | alignment-circuits/src/bin/circuit.rs:256-263 | a sequence aligned against itself by matches only, with score 0, is an honest witness |
| Circuit.AllMatchHonest | alignment-circuits/src/bin/circuit.rs:194-205 | with matches only, every step reads the base at its cursor and each cursor ends at the length |
| Circuit.BenchmarkAccepted | alignment-circuits/src/bin/circuit.rs:255-283 | the benchmark instance of 64 blocks of 125 bases satisfies the constraint system |
| Alloc.DecimalInjective | alignment-circuits-dorian/src/right_field_arithmetic/alloc.rs:16 | distinct indices have distinct decimal forms |
| Alloc.VecKeyInjective | alignment-circuits-dorian/src/right_field_arithmetic/alloc.rs:16 | the keys `name.i` of distinct indices are distinct |
| Alloc.DoubleKeyInjective | alignment-circuits-dorian/src/right_field_arithmetic/alloc.rs:23 | the keys `name.i.j` of distinct index pairs are distinct |
| Alloc.VecKeysMember | alignment-circuits-dorian/src/right_field_arithmetic/alloc.rs:15-16 | the keys written by the vector helper are exactly `name.i` for i below the length |
| Alloc.VecKeysCount | alignment-circuits-dorian/src/right_field_arithmetic/alloc.rs:15-16 | the vector helper writes exactly as many keys as the vector has elements |
| Alloc.DoubleVecKeysMember | alignment-circuits-dorian/src/right_field_arithmetic/alloc.rs:22-23 | the keys written by the double-vector helper are exactly `name.i.j` over the index pairs of the rows |
| Alloc.DoubleVecKeysCount | alignment-circuits-dorian/src/right_field_arithmetic/alloc.rs:22-23 | the double-vector helper writes exactly as many keys as the rows hold elements |
| Alloc.FieldInserted | alignment-circuits-dorian/src/right_field_arithmetic/alloc.rs:9-11 | `map_field` adds `name`, binds it to the converted input and leaves every other key unchanged |
| Alloc.FieldInsertedIdempotent | alignment-circuits-dorian/src/right_field_arithmetic/alloc.rs:9-11 | calling `map_field` twice gives the same map as calling it once |
| Alloc.VecInsertedKeys | alignment-circuits-dorian/src/right_field_arithmetic/alloc.rs:14-17 | after `map_field_vec` the key set is the old one plus the keys `name.i` |
| Alloc.VecInsertedAt | alignment-circuits-dorian/src/right_field_arithmetic/alloc.rs:15-16 | after `map_field_vec` each key `name.i` holds the converted element i |
| Alloc.VecInsertedOther | alignment-circuits-dorian/src/right_field_arithmetic/alloc.rs:14-17 | `map_field_vec` leaves every other key's value unchanged |
| Alloc.VecInsertedFixed | alignment-circuits-dorian/src/right_field_arithmetic/alloc.rs:15-16 | re-inserting values that are already present changes nothing |
| Alloc.VecInsertedIdempotent | alignment-circuits-dorian/src/right_field_arithmetic/alloc.rs:14-17 | calling `map_field_vec` twice gives the same map as calling it once |
| Alloc.DoubleVecInsertedKeys | alignment-circuits-dorian/src/right_field_arithmetic/alloc.rs:21-24 | after `map_field_double_vec` the key set is the old one plus the keys `name.i.j` |
| Alloc.DoubleVecInsertedAt | alignment-circuits-dorian/src/right_field_arithmetic/alloc.rs:22-23 | after `map_field_double_vec` each key `name.i.j` holds the converted element j of row i |
| Alloc.DoubleVecInsertedOther | alignment-circuits-dorian/src/right_field_arithmetic/alloc.rs:21-24 | `map_field_double_vec` leaves every other key's value unchanged |
| Alloc.DoubleVecInsertedFixed | alignment-circuits-dorian/src/right_field_arithmetic/alloc.rs:22-23 | re-inserting double-vector values that are already present changes nothing |
| Alloc.DoubleVecInsertedIdempotent | alignment-circuits-dorian/src/right_field_arithmetic/alloc.rs:21-24 | calling `map_field_double_vec` twice gives the same map as calling it once |
| Alloc.InputMap.Insert | alignment-circuits-dorian/src/right_field_arithmetic/alloc.rs:10 | `HashMap::insert`: the key is bound to the value and nothing else changes |
| Alloc.MapField | alignment-circuits-dorian/src/right_field_arithmetic/alloc.rs:9-11 | the input map becomes the map of `FieldInserted` |
| Alloc.MapFieldVec | alignment-circuits-dorian/src/right_field_arithmetic/alloc.rs:14-17 | the loop leaves the input map equal to the map of `VecInserted` |
| Alloc.MapFieldDoubleVec | alignment-circuits-dorian/src/right_field_arithmetic/alloc.rs:21-24 | the loop over rows leaves the input map equal to the map of `DoubleVecInserted` |

## Left out

- The Poseidon sponges (circuit.rs:104-121) are left out. The two challenges are parameters, so Fiat–Shamir derivation is not modelled.
- Schwartz–Zippel soundness of the memory check is not modelled. This is the argument that equal products mean a permutation, with high probability over the challenges. The model proves its completeness for honest witnesses and states acceptance for every pair of challenges.
- Witness allocation (`FpVar::new_witness`, circuit.rs:89-102) is left out. So are the gadget internals of `to_bits_le`, `is_eq`, `select` and `enforce_equal`: gadgets are modelled by the values they constrain, not by R1CS rows.
- Groth16 setup, proving and verification are left out, as are constraint counting, tracing and printing in `main` (circuit.rs:264-308). They are I/O or foreign library calls.
- The random number generator of `generate_random_sequence` is left out. The drawn pairs are a parameter of `PackBlocks` and `Bases`.
- `merkle.rs` is not part of this model.
- `integer_to_field` is a function parameter of the `Alloc` operations, and the `Value` type is a type parameter. `rug::Integer` is an unbounded `int`. Its `Arc` modulus is passed by value, so sharing and reference counting are not modelled.
- `HashMap` hashing and iteration order are not modelled: the input map is a Dafny `map`.
- `usize` overflow of the plain cursors is not modelled. They are unbounded `nat`s; they are never read, and a count above 2^64 would need more steps than any vector can hold.
- Circuit.HonestAccepted: it covers only witnesses whose step-indexed reads coincide with the cursor reads (`HonestReads`), because the code reads the plain bases at the step index. It is not a characterisation of every accepted instance.

