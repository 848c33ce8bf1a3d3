/**
 Arithmetic of the prime field the alignment circuit is instantiated with
 (`Fr`, the scalar field of BLS12-381), and the little-endian bit
 decomposition that the `to_bits_le` gadget computes.
 */
module Field {

  /** The modulus of `Fr`, the scalar field of BLS12-381. */
  const P: int := 0x73eda753299d7d483339d80809a1d80553bda402fffe5bfeffffffff00000001

  /** `Fr::MODULUS_BIT_SIZE`: how many bits `to_bits_le` returns for one element. */
  const MODULUS_BITS: nat := 255

  /** A field element, as its canonical representative in [0, P). */
  type Felt = x: int | 0 <= x < P

  /** Field addition; both operands are below P, so one subtraction reduces the sum. */
  function Add(a: Felt, b: Felt): Felt { if a + b < P then a + b else a + b - P }

  function Mul(a: Felt, b: Felt): Felt { (a * b) % P }

  lemma ModSmall(x: int)
    requires 0 <= x < P
    ensures x % P == x
  {
  }

  /** Adding the sum of two exclusive flags adds one exactly when either is set. */
  lemma AddFlags(a: Felt, b0: bool, b1: bool)
    requires !(b0 && b1)
    ensures Add(a, Add(Bit(b0), Bit(b1))) == if b0 || b1 then Add(a, 1) else a
  {
    ModSmall(Bit(b0) + Bit(b1));
    ModSmall(a);
  }

  lemma MulOne(a: Felt)
    ensures Mul(a, 1) == a
  {
    ModSmall(a);
  }

  /** The natural number `n` as a field element: `n` additions of one, starting from zero. */
  function FeltOf(n: nat): Felt
  {
    if n == 0 then 0 else Add(FeltOf(n - 1), 1)
  }

  /** Counting in the field is counting mod P. */
  lemma {:induction false} FeltOfMod(n: nat)
    ensures FeltOf(n) == n % P
  {
    if n > 0 {
      FeltOfMod(n - 1);
      IncrementMod(n - 1);
    }
  }

  /** A count below P is its own field element. */
  lemma FeltOfSmall(n: nat)
    requires n < P
    ensures FeltOf(n) == n
  {
    FeltOfMod(n);
  }

  lemma IncrementMod(i: nat)
    ensures Add(i % P, 1) == (i + 1) % P
  {
    var q, r := i / P, i % P;
    assert i == q * P + r;
    if r + 1 < P {
      assert i + 1 == q * P + (r + 1);
    } else {
      assert i + 1 == (q + 1) * P;
    }
  }

  function Pow2(n: nat): (r: nat)
    ensures r >= 1
  {
    if n == 0 then 1 else 2 * Pow2(n - 1)
  }

  lemma {:induction false} Pow2Add(a: nat, b: nat)
    ensures Pow2(a + b) == Pow2(a) * Pow2(b)
  {
    if a > 0 {
      Pow2Add(a - 1, b);
    }
  }

  lemma {:induction false} Pow2Monotone(a: nat, b: nat)
    requires a <= b
    ensures Pow2(a) <= Pow2(b)
  {
    if a < b {
      Pow2Monotone(a, b - 1);
    }
  }

  /** Every value of 250 bits is a field element, and every field element has 255 bits. */
  lemma ModulusBounds()
    ensures Pow2(250) < P < Pow2(MODULUS_BITS)
  {
    assert Pow2(5) == 32;
    assert Pow2(10) == 0x400;
    Pow2Add(10, 10);
    assert Pow2(20) == 0x100000;
    Pow2Add(20, 20);
    assert Pow2(40) == 0x100_0000_0000;
    Pow2Add(40, 10);
    assert Pow2(50) == 0x4_0000_0000_0000;
    Pow2Add(50, 50);
    assert Pow2(100) == 0x10_0000_0000_0000_0000_0000_0000;
    Pow2Add(100, 100);
    assert Pow2(200) == 0x100_0000_0000_0000_0000_0000_0000_0000_0000_0000_0000_0000_0000;
    Pow2Add(200, 50);
    assert Pow2(250) == 0x400_0000_0000_0000_0000_0000_0000_0000_0000_0000_0000_0000_0000_0000_0000_0000;
    Pow2Add(250, 5);
  }

  /** The integer value of a `Boolean` (`to_constraint_field` of one bit). */
  function Bit(b: bool): nat { if b then 1 else 0 }

  /** The low `n` bits of `v`, least significant first. */
  function ToBitsLe(v: nat, n: nat): (bits: seq<bool>)
    ensures |bits| == n
  {
    if n == 0 then [] else [v % 2 == 1] + ToBitsLe(v / 2, n - 1)
  }

  /** `BigInt::from_bits_le`: the value of a little-endian bit string. */
  function FromBitsLe(bits: seq<bool>): (v: nat)
    ensures v < Pow2(|bits|)
  {
    if bits == [] then 0 else Bit(bits[0]) + 2 * FromBitsLe(bits[1..])
  }

  /** `v` shifted right by `m` bits. */
  function Shr(v: nat, m: nat): nat
  {
    if m == 0 then v else Shr(v / 2, m - 1)
  }

  function Zeros(n: nat): (bits: seq<bool>)
    ensures |bits| == n && forall t :: 0 <= t < n ==> !bits[t]
  {
    seq(n, t => false)
  }

  /** The bits `to_bits_le` enforces for a field element: its 255 low bits. */
  function FeltBits(v: Felt): (bits: seq<bool>)
    ensures |bits| == MODULUS_BITS
  {
    ToBitsLe(v, MODULUS_BITS)
  }

  /** Bit `t` of the decomposition is the lowest bit of `v` shifted right by `t`. */
  lemma {:induction false} ToBitsLeAt(v: nat, n: nat, t: nat)
    requires t < n
    ensures ToBitsLe(v, n)[t] == (Shr(v, t) % 2 == 1)
  {
    if t > 0 {
      ToBitsLeAt(v / 2, n - 1, t - 1);
    }
  }

  lemma {:induction false} ShrSucc(v: nat, m: nat)
    ensures Shr(v, m + 1) == Shr(v, m) / 2
  {
    if m > 0 {
      ShrSucc(v / 2, m - 1);
    }
  }

  /** Decomposing the value of a bit string gives the string back, padded with zero bits. */
  lemma {:induction false} ToBitsOfFromBits(bits: seq<bool>, n: nat)
    requires |bits| <= n
    ensures ToBitsLe(FromBitsLe(bits), n) == bits + Zeros(n - |bits|)
  {
    if bits == [] {
      ToBitsOfZero(n);
      assert bits + Zeros(n) == Zeros(n);
    } else {
      var v := FromBitsLe(bits);
      assert v % 2 == Bit(bits[0]) && v / 2 == FromBitsLe(bits[1..]);
      ToBitsOfFromBits(bits[1..], n - 1);
      assert ToBitsLe(v, n) == [bits[0]] + (bits[1..] + Zeros(n - |bits|));
      assert [bits[0]] + (bits[1..] + Zeros(n - |bits|)) == bits + Zeros(n - |bits|);
    }
  }

  lemma {:induction false} ToBitsOfZero(n: nat)
    ensures ToBitsLe(0, n) == Zeros(n)
  {
    if n > 0 {
      ToBitsOfZero(n - 1);
      assert ToBitsLe(0, n) == [false] + Zeros(n - 1);
    }
  }

  /** Appending zero bits at the high end does not change the value. */
  lemma {:induction false} FromBitsLeZeros(bits: seq<bool>, m: nat)
    ensures FromBitsLe(bits + Zeros(m)) == FromBitsLe(bits)
  {
    if bits == [] {
      assert bits + Zeros(m) == Zeros(m);
      FromBitsOfZeros(m);
    } else {
      assert (bits + Zeros(m))[1..] == bits[1..] + Zeros(m);
      FromBitsLeZeros(bits[1..], m);
    }
  }

  lemma {:induction false} FromBitsOfZeros(m: nat)
    ensures FromBitsLe(Zeros(m)) == 0
  {
    if m > 0 {
      assert Zeros(m)[1..] == Zeros(m - 1);
      FromBitsOfZeros(m - 1);
    }
  }

  /** Every bit from position `m` on is zero. */
  predicate ZeroFrom(bits: seq<bool>, m: nat)
  {
    forall t :: m <= t < |bits| ==> !bits[t]
  }

  /** For an `n`-bit value, the bits from position `m` on are all zero exactly when the value is below 2^m. */
  lemma {:induction false} HighBitsZero(v: nat, n: nat, m: nat)
    requires m <= n && v < Pow2(n)
    ensures ZeroFrom(ToBitsLe(v, n), m) <==> v < Pow2(m)
  {
    if n > 0 {
      var bits, tail := ToBitsLe(v, n), ToBitsLe(v / 2, n - 1);
      assert bits == [v % 2 == 1] + tail;
      if m == 0 {
        HighBitsZero(v / 2, n - 1, 0);
        assert ZeroFrom(bits, 0) <==> !bits[0] && ZeroFrom(tail, 0) by {
          forall t | 0 <= t < n - 1 ensures tail[t] == bits[t + 1] { }
        }
      } else {
        HighBitsZero(v / 2, n - 1, m - 1);
        assert v / 2 < Pow2(m - 1) <==> v < Pow2(m);
        assert ZeroFrom(bits, m) <==> ZeroFrom(tail, m - 1) by {
          forall t | m - 1 <= t < n - 1 ensures tail[t] == bits[t + 1] { }
        }
      }
    }
  }
}
