/**
 The trace-step state machine of `generate_constraints`. Every decoded CIGAR
 symbol is classified by three equality tests (0 = match, 1 = insertion,
 2 = deletion); insertions and deletions add one to the score; a match
 requires the two read values to be equal; the target cursor moves on match
 and insertion, the reference cursor on match and deletion, and each
 sequence's trace product takes the fingerprint of the value read at its
 cursor exactly on the steps that move that cursor.

 As written, the values read at step `i` are the plain bases at index `i`
 (`target_sequence_bases[i]`, `reference_sequence_bases[i]`), not at the
 cursors; beside the field cursors the code keeps plain `usize` cursors
 driven by the plain CIGAR list, which panic on any symbol above 2 and are
 never read.
 */
module Trace {
  import opened Field
  import opened Runtime
  import opened Encoding
  import opened Memcheck

  const MATCH: Felt := 0
  const INSERTION: Felt := 1
  const DELETION: Felt := 2

  /** The symbols that add one to the score. */
  const SCORED: set<int> := {INSERTION, DELETION}

  /** The two sequences the trace reads from. */
  datatype Side = TargetSide | ReferenceSide

  /** The symbols that consume from a side: match and insertion for the target, match and deletion for the reference. */
  function Consumes(side: Side): set<int>
  {
    match side
    case TargetSide => {MATCH, INSERTION}
    case ReferenceSide => {MATCH, DELETION}
  }

  /** A match consumes from both sides and is not scored. */
  lemma MatchKinds()
    ensures MATCH !in SCORED && MATCH in Consumes(TargetSide) && MATCH in Consumes(ReferenceSide)
  {
  }

  /** The plain per-base vectors the step loop indexes. */
  datatype PlainWitness = PlainWitness(target: seq<Usize>, reference: seq<Usize>, cigar: seq<Usize>)

  /** The accumulators of the step loop. */
  datatype TraceState = TraceState(
    score: Felt,             // alignment_score
    targetCursor: Felt,      // target_index_var
    referenceCursor: Felt,   // reference_index_var
    targetIndex: nat,        // target_index (plain, unused)
    referenceIndex: nat,     // reference_index (plain, unused)
    targetProduct: Felt,     // target_string_memcheck_prod_2
    referenceProduct: Felt,  // reference_string_memcheck_prod_2
    matchesHold: bool)       // every match-step constraint so far holds

  const Initial: TraceState := TraceState(0, 0, 0, 0, 0, 1, 1, true)

  function Cursor(s: TraceState, side: Side): Felt
  {
    match side
    case TargetSide => s.targetCursor
    case ReferenceSide => s.referenceCursor
  }

  function Product(s: TraceState, side: Side): Felt
  {
    match side
    case TargetSide => s.targetProduct
    case ReferenceSide => s.referenceProduct
  }

  function PlainIndex(s: TraceState, side: Side): nat
  {
    match side
    case TargetSide => s.targetIndex
    case ReferenceSide => s.referenceIndex
  }

  function PlainBases(w: PlainWitness, side: Side): seq<Usize>
  {
    match side
    case TargetSide => w.target
    case ReferenceSide => w.reference
  }

  /** How often a symbol of `kinds` occurs in `symbols`. */
  function CountOf(symbols: seq<int>, kinds: set<int>): (c: nat)
    ensures c <= |symbols|
  {
    if symbols == [] then 0
    else CountOf(symbols[..|symbols| - 1], kinds) + (if symbols[|symbols| - 1] in kinds then 1 else 0)
  }

  /**
   The in-circuit part of one step, for the decoded symbol and the two read
   values. Its contract is the transition table: a side's cursor moves by one
   and its product takes the fingerprint of the value read at the old cursor
   exactly when the symbol consumes from that side, otherwise both stay as
   they are (on symbol 3 for both sides); the score moves on insertion and
   deletion; only a match constrains the read values.
   */
  function Advance(s: TraceState, ch: Challenges, symbol: Felt, targetRead: Felt, referenceRead: Felt): (r: TraceState)
    ensures r.targetCursor == if symbol in Consumes(TargetSide) then Add(s.targetCursor, 1) else s.targetCursor
    ensures r.referenceCursor == if symbol in Consumes(ReferenceSide) then Add(s.referenceCursor, 1) else s.referenceCursor
    ensures r.targetProduct ==
      if symbol in Consumes(TargetSide) then Mul(s.targetProduct, Fingerprint(ch, targetRead, s.targetCursor)) else s.targetProduct
    ensures r.referenceProduct ==
      if symbol in Consumes(ReferenceSide) then Mul(s.referenceProduct, Fingerprint(ch, referenceRead, s.referenceCursor)) else s.referenceProduct
    ensures r.score == if symbol in SCORED then Add(s.score, 1) else s.score
    ensures r.matchesHold == (s.matchesHold && (symbol == MATCH ==> targetRead == referenceRead))
    ensures r.targetIndex == s.targetIndex && r.referenceIndex == s.referenceIndex
    ensures symbol != MATCH && symbol != INSERTION && symbol != DELETION ==> r == s
  {
    var isMatch, isInsertion, isDeletion := symbol == MATCH, symbol == INSERTION, symbol == DELETION;
    AddFlags(s.score, isDeletion, isInsertion);
    AddFlags(s.targetCursor, isMatch, isInsertion);
    AddFlags(s.referenceCursor, isMatch, isDeletion);
    MulOne(s.targetProduct);
    MulOne(s.referenceProduct);
    s.(score := Add(s.score, Add(Bit(isDeletion), Bit(isInsertion))),
       matchesHold := s.matchesHold && (!isMatch || targetRead == referenceRead),
       targetProduct := Mul(s.targetProduct,
         if isMatch || isInsertion then Fingerprint(ch, targetRead, s.targetCursor) else 1),
       referenceProduct := Mul(s.referenceProduct,
         if isMatch || isDeletion then Fingerprint(ch, referenceRead, s.referenceCursor) else 1),
       targetCursor := Add(s.targetCursor, Add(Bit(isMatch), Bit(isInsertion))),
       referenceCursor := Add(s.referenceCursor, Add(Bit(isMatch), Bit(isDeletion))))
  }

  /** The plain bookkeeping of one step: `match self.cigar_string_bases[i]`. */
  function PlainAdvance(s: TraceState, plainSymbol: Usize): (r: Result<TraceState>)
    ensures r.Ok? <==> plainSymbol <= 2
    ensures r.Ok? ==> r.value.targetIndex == s.targetIndex + if plainSymbol in Consumes(TargetSide) then 1 else 0
    ensures r.Ok? ==> r.value.referenceIndex == s.referenceIndex + if plainSymbol in Consumes(ReferenceSide) then 1 else 0
    ensures r.Ok? ==> r.value == s.(targetIndex := r.value.targetIndex, referenceIndex := r.value.referenceIndex)
    ensures r.Panicked? ==> r.reason == IncorrectCigarCharacter
  {
    match plainSymbol
    case 0 => Ok(s.(targetIndex := s.targetIndex + 1, referenceIndex := s.referenceIndex + 1))
    case 1 => Ok(s.(targetIndex := s.targetIndex + 1))
    case 2 => Ok(s.(referenceIndex := s.referenceIndex + 1))
    case _ => Panicked(IncorrectCigarCharacter)
  }

  /** `usize_to_felt(bases[i])`, panicking past the end of the vector. */
  function ReadBase(bases: seq<Usize>, i: nat): Result<Felt>
  {
    if i < |bases| then UsizeToFelt(bases[i]) else Panicked(IndexOutOfBounds)
  }

  /** Step `i`: read both values at index `i`, advance the circuit state, then the plain cursors. */
  function StepAt(s: TraceState, ch: Challenges, cigar: seq<Felt>, w: PlainWitness, i: nat): Result<TraceState>
    requires i < |cigar|
  {
    var targetRead :- ReadBase(w.target, i);
    var referenceRead :- ReadBase(w.reference, i);
    var next := Advance(s, ch, cigar[i], targetRead, referenceRead);
    if i < |w.cigar| then PlainAdvance(next, w.cigar[i]) else Panicked(IndexOutOfBounds)
  }

  /** The first `n` steps from the initial state; the first panic ends the run. */
  function Run(ch: Challenges, cigar: seq<Felt>, w: PlainWitness, n: nat): Result<TraceState>
    requires n <= |cigar|
  {
    if n == 0 then Ok(Initial)
    else
      var s :- Run(ch, cigar, w, n - 1);
      StepAt(s, ch, cigar, w, n - 1)
  }

  /** The plain vectors cover the first `n` steps and hold bases 0..3 and plain symbols 0..2 there. */
  predicate StepsValid(w: PlainWitness, n: nat)
  {
    && n <= |w.target| && n <= |w.reference| && n <= |w.cigar|
    && forall j :: 0 <= j < n ==> w.target[j] <= 3 && w.reference[j] <= 3 && w.cigar[j] <= 2
  }

  /** The step loop gets through `n` steps without a panic exactly when the plain vectors are valid there. */
  lemma {:induction false} RunOkIff(ch: Challenges, cigar: seq<Felt>, w: PlainWitness, n: nat)
    requires n <= |cigar|
    ensures Run(ch, cigar, w, n).Ok? <==> StepsValid(w, n)
  {
    if n > 0 {
      RunOkIff(ch, cigar, w, n - 1);
      StepsValidSnoc(w, n);
      if Run(ch, cigar, w, n - 1).Ok? {
        StepAtOkIff(Run(ch, cigar, w, n - 1).value, ch, cigar, w, n - 1);
      }
    }
  }

  lemma StepsValidSnoc(w: PlainWitness, n: nat)
    requires 0 < n
    ensures StepsValid(w, n) <==>
      StepsValid(w, n - 1) && n - 1 < |w.target| && n - 1 < |w.reference| && n - 1 < |w.cigar|
      && w.target[n - 1] <= 3 && w.reference[n - 1] <= 3 && w.cigar[n - 1] <= 2
  {
  }

  /** A single step panics exactly when a read or the plain symbol at its index is missing or out of range. */
  lemma StepAtOkIff(s: TraceState, ch: Challenges, cigar: seq<Felt>, w: PlainWitness, i: nat)
    requires i < |cigar|
    ensures StepAt(s, ch, cigar, w, i).Ok? <==>
      i < |w.target| && i < |w.reference| && i < |w.cigar|
      && w.target[i] <= 3 && w.reference[i] <= 3 && w.cigar[i] <= 2
  {
  }

  /** Once the run has panicked, later steps keep that panic. */
  lemma {:induction false} RunPanicPersists(ch: Challenges, cigar: seq<Felt>, w: PlainWitness, i: nat, n: nat)
    requires i <= n <= |cigar| && Run(ch, cigar, w, i).Panicked?
    ensures Run(ch, cigar, w, n) == Run(ch, cigar, w, i)
  {
    if i < n {
      RunPanicPersists(ch, cigar, w, i, n - 1);
    }
  }

  lemma CountOfSnoc(symbols: seq<int>, kinds: set<int>, n: nat)
    requires 0 < n <= |symbols|
    ensures CountOf(symbols[..n], kinds) == CountOf(symbols[..n - 1], kinds) + if symbols[n - 1] in kinds then 1 else 0
  {
    assert symbols[..n][..n - 1] == symbols[..n - 1];
  }

  /** In a sequence that repeats one symbol, the count is its length or zero. */
  lemma {:induction false} CountOfUniform(symbols: seq<int>, kinds: set<int>, x: int)
    requires forall j :: 0 <= j < |symbols| ==> symbols[j] == x
    ensures CountOf(symbols, kinds) == if x in kinds then |symbols| else 0
  {
    if symbols != [] {
      CountOfUniform(symbols[..|symbols| - 1], kinds, x);
    }
  }

  /** A count over a longer prefix is never smaller, and never exceeds the prefix length. */
  lemma {:induction false} CountOfMonotone(symbols: seq<int>, kinds: set<int>, j: nat, k: nat)
    requires j <= k <= |symbols|
    ensures CountOf(symbols[..j], kinds) <= CountOf(symbols[..k], kinds) <= k
  {
    if j < k {
      CountOfMonotone(symbols, kinds, j, k - 1);
      CountOfSnoc(symbols, kinds, k);
    }
  }

  /** A step whose reads and plain symbol are valid: the circuit update, then the plain one. */
  function ValidStep(s: TraceState, ch: Challenges, symbol: Felt, targetRead: Felt, referenceRead: Felt,
                     plainSymbol: Usize): TraceState
    requires plainSymbol <= 2
  {
    PlainAdvance(Advance(s, ch, symbol, targetRead, referenceRead), plainSymbol).value
  }

  /** The states of a run whose first `n` steps are valid, without the panic wrapper. */
  function States(ch: Challenges, cigar: seq<Felt>, w: PlainWitness, n: nat): TraceState
    requires n <= |cigar| && StepsValid(w, n)
  {
    if n == 0 then Initial
    else
      assert StepsValid(w, n - 1);
      ValidStep(States(ch, cigar, w, n - 1), ch, cigar[n - 1], w.target[n - 1], w.reference[n - 1], w.cigar[n - 1])
  }

  lemma StatesStep(ch: Challenges, cigar: seq<Felt>, w: PlainWitness, n: nat)
    requires 0 < n <= |cigar| && StepsValid(w, n)
    ensures StepsValid(w, n - 1)
    ensures States(ch, cigar, w, n) ==
      ValidStep(States(ch, cigar, w, n - 1), ch, cigar[n - 1], w.target[n - 1], w.reference[n - 1], w.cigar[n - 1])
  {
  }

  /** A run through valid plain vectors does not panic and ends in the state the valid steps reach. */
  lemma {:induction false} RunStates(ch: Challenges, cigar: seq<Felt>, w: PlainWitness, n: nat)
    requires n <= |cigar| && StepsValid(w, n)
    ensures Run(ch, cigar, w, n) == Ok(States(ch, cigar, w, n))
  {
    if n > 0 {
      assert StepsValid(w, n - 1);
      RunStates(ch, cigar, w, n - 1);
    }
  }

  /** The components of one valid step, read off the transition table of its two halves. */
  lemma ValidStepFacts(s: TraceState, ch: Challenges, symbol: Felt, targetRead: Felt, referenceRead: Felt,
                       plainSymbol: Usize, side: Side)
    requires plainSymbol <= 2
    ensures var r := ValidStep(s, ch, symbol, targetRead, referenceRead, plainSymbol);
      && r.score == (if symbol in SCORED then Add(s.score, 1) else s.score)
      && Cursor(r, side) == (if symbol in Consumes(side) then Add(Cursor(s, side), 1) else Cursor(s, side))
      && PlainIndex(r, side) == PlainIndex(s, side) + (if plainSymbol in Consumes(side) then 1 else 0)
      && r.matchesHold == (s.matchesHold && (symbol == MATCH ==> targetRead == referenceRead))
      && Product(r, side) == if symbol in Consumes(side)
          then Mul(Product(s, side), Fingerprint(ch, if side == TargetSide then targetRead else referenceRead, Cursor(s, side)))
          else Product(s, side)
  {
    var next := Advance(s, ch, symbol, targetRead, referenceRead);
    var r := PlainAdvance(next, plainSymbol).value;
    assert r == next.(targetIndex := r.targetIndex, referenceIndex := r.referenceIndex);
  }

  /** The components of step `n` of a valid run, in terms of the state after `n - 1` steps. */
  lemma StatesStepFacts(ch: Challenges, cigar: seq<Felt>, w: PlainWitness, n: nat, side: Side)
    requires 0 < n <= |cigar| && StepsValid(w, n)
    ensures StepsValid(w, n - 1)
    ensures var s, r, symbol := States(ch, cigar, w, n - 1), States(ch, cigar, w, n), cigar[n - 1];
      && r.score == (if symbol in SCORED then Add(s.score, 1) else s.score)
      && Cursor(r, side) == (if symbol in Consumes(side) then Add(Cursor(s, side), 1) else Cursor(s, side))
      && PlainIndex(r, side) == PlainIndex(s, side) + (if w.cigar[n - 1] in Consumes(side) then 1 else 0)
      && r.matchesHold == (s.matchesHold && (symbol == MATCH ==> w.target[n - 1] == w.reference[n - 1]))
  {
    StatesStep(ch, cigar, w, n);
    ValidStepFacts(States(ch, cigar, w, n - 1), ch, cigar[n - 1], w.target[n - 1], w.reference[n - 1], w.cigar[n - 1], side);
  }

  /** After `n` valid steps the score is the number of insertions and deletions, counted in the field. */
  lemma {:induction false} StatesScore(ch: Challenges, cigar: seq<Felt>, w: PlainWitness, n: nat)
    requires n <= |cigar| && StepsValid(w, n)
    ensures States(ch, cigar, w, n).score == FeltOf(CountOf(cigar[..n], SCORED))
  {
    if n > 0 {
      StatesStepFacts(ch, cigar, w, n, TargetSide);
      StatesScore(ch, cigar, w, n - 1);
      CountOfSnoc(cigar, SCORED, n);
    }
  }

  /** After `n` valid steps each field cursor counts the symbols consuming from its side, in the field. */
  lemma {:induction false} StatesCursor(ch: Challenges, cigar: seq<Felt>, w: PlainWitness, side: Side, n: nat)
    requires n <= |cigar| && StepsValid(w, n)
    ensures Cursor(States(ch, cigar, w, n), side) == FeltOf(CountOf(cigar[..n], Consumes(side)))
  {
    if n > 0 {
      StatesStepFacts(ch, cigar, w, n, side);
      StatesCursor(ch, cigar, w, side, n - 1);
      CountOfSnoc(cigar, Consumes(side), n);
    }
  }

  /** After `n` valid steps each plain cursor counts the plain CIGAR symbols consuming from its side. */
  lemma {:induction false} StatesPlainIndex(ch: Challenges, cigar: seq<Felt>, w: PlainWitness, side: Side, n: nat)
    requires n <= |cigar| && StepsValid(w, n)
    ensures PlainIndex(States(ch, cigar, w, n), side) == CountOf(w.cigar[..n], Consumes(side))
  {
    if n > 0 {
      StatesStepFacts(ch, cigar, w, n, side);
      StatesPlainIndex(ch, cigar, w, side, n - 1);
      CountOfSnoc(w.cigar, Consumes(side), n);
    }
  }

  /** After `n` valid steps the match constraints hold exactly when every match step read equal values. */
  lemma {:induction false} StatesMatches(ch: Challenges, cigar: seq<Felt>, w: PlainWitness, n: nat)
    requires n <= |cigar| && StepsValid(w, n)
    ensures States(ch, cigar, w, n).matchesHold <==>
      forall j :: 0 <= j < n && cigar[j] == MATCH ==> w.target[j] == w.reference[j]
  {
    if n > 0 {
      StatesStepFacts(ch, cigar, w, n, TargetSide);
      StatesMatches(ch, cigar, w, n - 1);
    }
  }

  /** Plain and field cursors agree when the plain CIGAR list is the decoded one and the counts stay below P. */
  lemma CursorsAgree(ch: Challenges, cigar: seq<Felt>, w: PlainWitness, n: nat)
    requires n <= |cigar| && StepsValid(w, n) && n < P
    requires forall j :: 0 <= j < n ==> w.cigar[j] == cigar[j]
    ensures forall side: Side :: Cursor(States(ch, cigar, w, n), side) == PlainIndex(States(ch, cigar, w, n), side) <= n
  {
    assert cigar[..n] == w.cigar[..n];
    forall side: Side ensures Cursor(States(ch, cigar, w, n), side) == PlainIndex(States(ch, cigar, w, n), side) <= n {
      StatesCursor(ch, cigar, w, side, n);
      StatesPlainIndex(ch, cigar, w, side, n);
      FeltOfSmall(CountOf(cigar[..n], Consumes(side)));
    }
  }

  /**
   The reads of one side are honest for a sequence when every step that
   consumes from that side read the sequence's base at the cursor.
   */
  predicate HonestReads(cigar: seq<Felt>, w: PlainWitness, side: Side, bases: seq<Felt>, n: nat)
    requires n <= |cigar| && StepsValid(w, n)
  {
    forall j :: 0 <= j < n ==> HonestRead(cigar, w, side, bases, j)
  }

  /** Step `j` either does not consume from the side, or read the sequence's base at its cursor. */
  predicate HonestRead(cigar: seq<Felt>, w: PlainWitness, side: Side, bases: seq<Felt>, j: nat)
    requires j < |cigar| && j < |w.target| && j < |w.reference|
  {
    cigar[j] in Consumes(side) ==>
      CountOf(cigar[..j], Consumes(side)) < |bases| && PlainBases(w, side)[j] == bases[CountOf(cigar[..j], Consumes(side))]
  }

  /**
   Memory check, completeness direction: when the reads of a side are
   honest, its trace product is the full product of the sequence over as
   many positions as the trace consumed.
   */
  lemma {:induction false} HonestReadsProduct(ch: Challenges, cigar: seq<Felt>, w: PlainWitness, side: Side, bases: seq<Felt>, n: nat)
    requires n <= |cigar| && StepsValid(w, n) && HonestReads(cigar, w, side, bases, n)
    ensures CountOf(cigar[..n], Consumes(side)) <= |bases|
    ensures Product(States(ch, cigar, w, n), side) == FullProduct(ch, bases, CountOf(cigar[..n], Consumes(side)))
  {
    HonestReadsCount(cigar, w, side, bases, n);
    if n > 0 {
      HonestReadsSnoc(cigar, w, side, bases, n);
      HonestReadsProduct(ch, cigar, w, side, bases, n - 1);
      StatesProductStep(ch, cigar, w, side, bases, n);
    }
  }

  /** The induction step of the product: one more honest read multiplies in the next fingerprint of the sequence. */
  lemma StatesProductStep(ch: Challenges, cigar: seq<Felt>, w: PlainWitness, side: Side, bases: seq<Felt>, n: nat)
    requires 0 < n <= |cigar| && StepsValid(w, n)
    requires CountOf(cigar[..n - 1], Consumes(side)) <= |bases|
    requires Product(States(ch, cigar, w, n - 1), side) == FullProduct(ch, bases, CountOf(cigar[..n - 1], Consumes(side)))
    requires HonestRead(cigar, w, side, bases, n - 1)
    ensures CountOf(cigar[..n], Consumes(side)) <= |bases|
    ensures Product(States(ch, cigar, w, n), side) == FullProduct(ch, bases, CountOf(cigar[..n], Consumes(side)))
  {
    assert PlainBases(w, side)[n - 1] == if side == TargetSide then w.target[n - 1] else w.reference[n - 1];
    StatesStep(ch, cigar, w, n);
    StatesCursor(ch, cigar, w, side, n - 1);
    CountOfSnoc(cigar, Consumes(side), n);
    ProductStep(States(ch, cigar, w, n - 1), ch, cigar[n - 1], w.target[n - 1], w.reference[n - 1],
      w.cigar[n - 1], side, bases, CountOf(cigar[..n - 1], Consumes(side)));
  }

  /** Honest reads never run past the end of the sequence. */
  lemma {:induction false} HonestReadsCount(cigar: seq<Felt>, w: PlainWitness, side: Side, bases: seq<Felt>, n: nat)
    requires n <= |cigar| && StepsValid(w, n) && HonestReads(cigar, w, side, bases, n)
    ensures CountOf(cigar[..n], Consumes(side)) <= |bases|
  {
    if n > 0 {
      HonestReadsSnoc(cigar, w, side, bases, n);
      HonestReadsCount(cigar, w, side, bases, n - 1);
      CountOfSnoc(cigar, Consumes(side), n);
    }
  }

  /** Honest reads over `n` steps are honest over the first `n - 1`, and step `n - 1` read the base at its cursor. */
  lemma HonestReadsSnoc(cigar: seq<Felt>, w: PlainWitness, side: Side, bases: seq<Felt>, n: nat)
    requires 0 < n <= |cigar| && StepsValid(w, n) && HonestReads(cigar, w, side, bases, n)
    ensures StepsValid(w, n - 1) && HonestReads(cigar, w, side, bases, n - 1)
    ensures HonestRead(cigar, w, side, bases, n - 1)
  {
  }

  /** One valid step multiplies the full product over `c` positions up to `c + 1` exactly when it reads base `c`. */
  lemma ProductStep(s: TraceState, ch: Challenges, symbol: Felt, targetRead: Felt, referenceRead: Felt,
                    plainSymbol: Usize, side: Side, bases: seq<Felt>, c: nat)
    requires plainSymbol <= 2 && c <= |bases|
    requires Cursor(s, side) == FeltOf(c) && Product(s, side) == FullProduct(ch, bases, c)
    requires symbol in Consumes(side) ==>
      c < |bases| && (if side == TargetSide then targetRead else referenceRead) == bases[c]
    ensures c + (if symbol in Consumes(side) then 1 else 0) <= |bases|
    ensures Product(ValidStep(s, ch, symbol, targetRead, referenceRead, plainSymbol), side)
      == FullProduct(ch, bases, c + if symbol in Consumes(side) then 1 else 0)
  {
    ValidStepFacts(s, ch, symbol, targetRead, referenceRead, plainSymbol, side);
  }

  /**
   One pass of the loop body over the decoded CIGAR symbols, on the loop's
   accumulators: the score, the two circuit cursors, the two plain cursors,
   the two running products and the match flag. Values are read at index
   `i`; a read outside 0..3, a missing index or a plain symbol outside 0..2
   panics.
   */
  method TraceStep(s: TraceState, ch: Challenges, cigarChars: seq<Felt>, w: PlainWitness, i: nat)
    returns (r: Result<TraceState>)
    requires i < |cigarChars|
    ensures r == StepAt(s, ch, cigarChars, w, i)
  {
    var alignmentScore, targetIndexVar, referenceIndexVar := s.score, s.targetCursor, s.referenceCursor;
    var targetIndex, referenceIndex := s.targetIndex, s.referenceIndex;
    var targetProduct, referenceProduct, matchesHold := s.targetProduct, s.referenceProduct, s.matchesHold;
    var isMatch := cigarChars[i] == MATCH;
    var isInsertion := cigarChars[i] == INSERTION;
    var isDeletion := cigarChars[i] == DELETION;
    alignmentScore := Add(alignmentScore, Add(Bit(isDeletion), Bit(isInsertion)));
    var targetRead :- ReadBase(w.target, i);
    var referenceRead :- ReadBase(w.reference, i);
    var basesMatch := targetRead == referenceRead;
    matchesHold := matchesHold && (!isMatch || basesMatch);
    targetProduct := Mul(targetProduct,
      if isMatch || isInsertion then Fingerprint(ch, targetRead, targetIndexVar) else 1);
    referenceProduct := Mul(referenceProduct,
      if isMatch || isDeletion then Fingerprint(ch, referenceRead, referenceIndexVar) else 1);
    targetIndexVar := Add(targetIndexVar, Add(Bit(isMatch), Bit(isInsertion)));
    referenceIndexVar := Add(referenceIndexVar, Add(Bit(isMatch), Bit(isDeletion)));
    ghost var next := TraceState(alignmentScore, targetIndexVar, referenceIndexVar,
      targetIndex, referenceIndex, targetProduct, referenceProduct, matchesHold);
    assert next == Advance(s, ch, cigarChars[i], targetRead, referenceRead);
    if i >= |w.cigar| {
      return Panicked(IndexOutOfBounds);
    }
    match w.cigar[i] {
      case 0 => targetIndex, referenceIndex := targetIndex + 1, referenceIndex + 1;
      case 1 => targetIndex := targetIndex + 1;
      case 2 => referenceIndex := referenceIndex + 1;
      case _ => return Panicked(IncorrectCigarCharacter);
    }
    r := Ok(TraceState(alignmentScore, targetIndexVar, referenceIndexVar,
      targetIndex, referenceIndex, targetProduct, referenceProduct, matchesHold));
  }

  /**
   The loop over the decoded CIGAR symbols: from the initial accumulators,
   one step per symbol; the first panic ends the loop.
   */
  method RunTrace(ch: Challenges, cigarChars: seq<Felt>, w: PlainWitness) returns (r: Result<TraceState>)
    ensures r == Run(ch, cigarChars, w, |cigarChars|)
    ensures r.Ok? <==> StepsValid(w, |cigarChars|)
  {
    RunOkIff(ch, cigarChars, w, |cigarChars|);
    var state := Initial;
    for i := 0 to |cigarChars|
      invariant Run(ch, cigarChars, w, i) == Ok(state)
    {
      r := TraceStep(state, ch, cigarChars, w, i);
      if r.Panicked? {
        RunPanicPersists(ch, cigarChars, w, i + 1, |cigarChars|);
        return;
      }
      state := r.value;
    }
    r := Ok(state);
  }
}
