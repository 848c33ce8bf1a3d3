/**
 The fingerprints of the memory-checking argument. Every base `v` that sits
 at position `i` of a sequence is fingerprinted as `c0 + v + i * c1`, with
 the two challenges `c0`, `c1` squeezed from the Fiat–Shamir sponge; the
 full-sequence product multiplies the fingerprints of every position.
 */
module Memcheck {
  import opened Field
  import opened Runtime

  /** The two field elements `challenge_vars[0]` and `challenge_vars[1]`. */
  datatype Challenges = Challenges(c0: Felt, c1: Felt)

  /** `c0 + value + index * c1` in the field. */
  function Fingerprint(ch: Challenges, value: Felt, index: Felt): Felt
  {
    Add(Add(ch.c0, value), Mul(index, ch.c1))
  }

  /** The product of the fingerprints of positions 0..n of `bases`, each index counted in the field. */
  function FullProduct(ch: Challenges, bases: seq<Felt>, n: nat): Felt
    requires n <= |bases|
  {
    if n == 0 then 1
    else Mul(FullProduct(ch, bases, n - 1), Fingerprint(ch, bases[n - 1], FeltOf(n - 1)))
  }

  /** The full product over `n` positions reads only the first `n` bases. */
  lemma {:induction false} FullProductPrefix(ch: Challenges, bases: seq<Felt>, other: seq<Felt>, n: nat)
    requires n <= |bases| && n <= |other| && bases[..n] == other[..n]
    ensures FullProduct(ch, bases, n) == FullProduct(ch, other, n)
  {
    if n > 0 {
      assert bases[n - 1] == bases[..n][n - 1] == other[n - 1];
      assert bases[..n - 1] == bases[..n][..n - 1];
      FullProductPrefix(ch, bases, other, n - 1);
    }
  }

  /**
   The first loop of the memory check: for every position `i` of the decoded
   reference it multiplies the fingerprint of `target_bases[i]` and of
   `reference_bases[i]` into the two products. The target is indexed by the
   reference's length, so a shorter target panics.
   */
  method FullSequenceProducts(ch: Challenges, referenceBases: seq<Felt>, targetBases: seq<Felt>)
    returns (r: Result<(Felt, Felt)>)
    ensures r.Ok? <==> |referenceBases| <= |targetBases|
    ensures r.Ok? ==> r.value.0 == FullProduct(ch, targetBases, |referenceBases|)
    ensures r.Ok? ==> r.value.1 == FullProduct(ch, referenceBases, |referenceBases|)
    ensures r.Panicked? ==> r.reason == IndexOutOfBounds
  {
    var targetProduct: Felt, referenceProduct: Felt := 1, 1;
    var iFelt: Felt := 0;
    for i := 0 to |referenceBases|
      invariant i <= |targetBases|
      invariant iFelt == FeltOf(i)
      invariant targetProduct == FullProduct(ch, targetBases, i)
      invariant referenceProduct == FullProduct(ch, referenceBases, i)
    {
      if i >= |targetBases| {
        return Panicked(IndexOutOfBounds);
      }
      targetProduct := Mul(targetProduct, Fingerprint(ch, targetBases[i], iFelt));
      referenceProduct := Mul(referenceProduct, Fingerprint(ch, referenceBases[i], iFelt));
      iFelt := Add(iFelt, 1);
    }
    return Ok((targetProduct, referenceProduct));
  }
}
