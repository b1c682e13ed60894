/** The 64-bit mixer and the FNV-1a step of `extraction-det`, with explicit inverses.

    Words are `bv64`, so `+`, `-` and `*` wrap modulo 2^64 as `wrapping_add` and
    `wrapping_mul` do. Every step is a permutation of the 64-bit words: an xor with a
    right shift is undone by repeating the shift, and a product with an odd constant by a
    product with that constant's inverse modulo 2^64. */
module Mix64 {
  type Word = bv64

  // The steps of the finaliser, and of its inverse.

  function XorShift30(z: Word): Word { z ^ (z >> 30) }
  function XorShift27(z: Word): Word { z ^ (z >> 27) }
  function XorShift31(z: Word): Word { z ^ (z >> 31) }
  function Unshift30(z: Word): Word { z ^ (z >> 30) ^ (z >> 60) }
  function Unshift27(z: Word): Word { z ^ (z >> 27) ^ (z >> 54) }
  function Unshift31(z: Word): Word { z ^ (z >> 31) ^ (z >> 62) }
  function MulFirst(z: Word): Word { z * 0xBF58_476D_1CE4_E5B9 }
  function DivFirst(z: Word): Word { z * 0x96DE_1B17_3F11_9089 }
  function MulSecond(z: Word): Word { z * 0x94D0_49BB_1331_11EB }
  function DivSecond(z: Word): Word { z * 0x3196_42B2_D24D_8EC3 }
  function AddGamma(z: Word): Word { z + 0x9E37_79B9_7F4A_7C15 }
  function SubGamma(z: Word): Word { z - 0x9E37_79B9_7F4A_7C15 }

  /** splitmix64: the hash of one word. */
  function Mix(x: Word): Word {
    XorShift31(MulSecond(XorShift27(MulFirst(XorShift30(AddGamma(x))))))
  }

  /** The claimed inverse of `Mix`, step by step from the far end. */
  function Unmix(y: Word): Word {
    SubGamma(Unshift30(DivFirst(Unshift27(DivSecond(Unshift31(y))))))
  }

  // Each step and its inverse. The first two clauses are what the solver can rewrite in
  // place; the named forms follow from them by congruence.

  lemma XorShift30Unshift30Unfolded(z: Word)
    ensures Unshift30(z ^ (z >> 30)) == z
    ensures XorShift30(z ^ (z >> 30) ^ (z >> 60)) == z
  {
  }

  lemma XorShift30Inverts(z: Word)
    ensures Unshift30(XorShift30(z)) == z
    ensures XorShift30(Unshift30(z)) == z
  {
    XorShift30Unshift30Unfolded(z);
  }

  lemma XorShift27Unshift27Unfolded(z: Word)
    ensures Unshift27(z ^ (z >> 27)) == z
    ensures XorShift27(z ^ (z >> 27) ^ (z >> 54)) == z
  {
  }

  lemma XorShift27Inverts(z: Word)
    ensures Unshift27(XorShift27(z)) == z
    ensures XorShift27(Unshift27(z)) == z
  {
    XorShift27Unshift27Unfolded(z);
  }

  lemma XorShift31Unshift31Unfolded(z: Word)
    ensures Unshift31(z ^ (z >> 31)) == z
    ensures XorShift31(z ^ (z >> 31) ^ (z >> 62)) == z
  {
  }

  lemma XorShift31Inverts(z: Word)
    ensures Unshift31(XorShift31(z)) == z
    ensures XorShift31(Unshift31(z)) == z
  {
    XorShift31Unshift31Unfolded(z);
  }

  lemma MulFirstDivFirstUnfolded(z: Word)
    ensures DivFirst(z * 0xBF58_476D_1CE4_E5B9) == z
    ensures MulFirst(z * 0x96DE_1B17_3F11_9089) == z
  {
  }

  lemma MulFirstInverts(z: Word)
    ensures DivFirst(MulFirst(z)) == z
    ensures MulFirst(DivFirst(z)) == z
  {
    MulFirstDivFirstUnfolded(z);
  }

  lemma MulSecondDivSecondUnfolded(z: Word)
    ensures DivSecond(z * 0x94D0_49BB_1331_11EB) == z
    ensures MulSecond(z * 0x3196_42B2_D24D_8EC3) == z
  {
  }

  lemma MulSecondInverts(z: Word)
    ensures DivSecond(MulSecond(z)) == z
    ensures MulSecond(DivSecond(z)) == z
  {
    MulSecondDivSecondUnfolded(z);
  }

  lemma GammaInverts(z: Word)
    ensures SubGamma(AddGamma(z)) == z
    ensures AddGamma(SubGamma(z)) == z
  {
  }

  /** `Mix` is a bijection on 64-bit words: `Unmix` undoes it on both sides. */
  lemma MixBijective(x: Word)
    ensures Unmix(Mix(x)) == x
    ensures Mix(Unmix(x)) == x
  {
    UnmixMix(x);
    MixUnmix(x);
  }

  lemma UnmixMix(x: Word)
    ensures Unmix(Mix(x)) == x
  {
    var a := AddGamma(x);
    var b := XorShift30(a);
    var c := MulFirst(b);
    var d := XorShift27(c);
    var e := MulSecond(d);
    GammaInverts(x);
    XorShift30Inverts(a);
    MulFirstInverts(b);
    XorShift27Inverts(c);
    MulSecondInverts(d);
    XorShift31Inverts(e);
  }

  lemma MixUnmix(y: Word)
    ensures Mix(Unmix(y)) == y
  {
    var e := Unshift31(y);
    var d := DivSecond(e);
    var c := Unshift27(d);
    var b := DivFirst(c);
    var a := Unshift30(b);
    XorShift31Inverts(y);
    MulSecondInverts(e);
    XorShift27Inverts(d);
    MulFirstInverts(c);
    XorShift30Inverts(b);
    GammaInverts(a);
  }

  lemma MixInjective(x: Word, y: Word)
    requires Mix(x) == Mix(y)
    ensures x == y
  {
    MixBijective(x);
    MixBijective(y);
  }

  // FNV-1a.

  function Xor(h: Word, v: Word): Word { h ^ v }
  function MulPrime(h: Word): Word { h * 0x100_0000_01b3 }
  function DivPrime(h: Word): Word { h * 0xce96_5057_aff6_957b }

  /** One FNV-1a step: absorb a word into the accumulator. */
  function Absorb(h: Word, v: Word): Word { MulPrime(Xor(h, v)) }

  lemma PrimeUnfolded(z: Word)
    ensures DivPrime(z * 0x100_0000_01b3) == z
  {
  }

  lemma PrimeInverts(z: Word)
    ensures DivPrime(MulPrime(z)) == z
  {
    PrimeUnfolded(z);
  }

  lemma XorTwice(s: Word, t: Word)
    ensures Xor(Xor(s, t), t) == s
    ensures Xor(Xor(s, t), s) == t
  {
  }

  /** An FNV step is a bijection in the accumulator for a fixed input word and in the input
      word for a fixed accumulator: what it absorbed, and what it started from, come back. */
  lemma AbsorbInverts(h: Word, v: Word)
    ensures Xor(DivPrime(Absorb(h, v)), v) == h
    ensures Xor(DivPrime(Absorb(h, v)), h) == v
  {
    PrimeInverts(Xor(h, v));
    XorTwice(h, v);
  }
}
