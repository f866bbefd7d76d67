/** Bit balance of a hash: the "exactly 50 % ones" test and the evenness ratio. */
module Balance {
  import opened Hex
  import opened BitMath

  /** `isBalanced`: the binary form of the value, padded to four bits per
      digit, has as many zeros as half its length. The value's binary form,
      padded, is the concatenation of the digits' 4-bit expansions. */
  function IsBalanced(hex: string): (b: bool)
    requires HasPrefix(hex) && |hex| > 2 && AllHex(hex[2..])
    ensures b <==> 2 * Popcount(hex) == 4 * (|hex| - 2)
  {
    PopcountCountsBits(hex[2..]);
    var bin := Bin(hex[2..]);
    CountFalse(bin) * 2 == |bin|
  }

  /** For a valid 256-bit (160-bit) hash, balanced means exactly 128 (80) ones. */
  lemma BalancedIffHalfOnes(hex: string, bits: HashBits)
    requires ValidHashInput(hex, bits)
    ensures IsBalanced(hex) <==> Popcount(hex) == Bits(bits) / 2
  {
  }

  function Min(a: int, b: int): int { if a <= b then a else b }
  function Max(a: int, b: int): int { if a <= b then b else a }

  /** The evenness ratio `min(ones, zeros) / max(ones, zeros)`, exact (the
      two-decimal rounding of the display is not modelled). */
  function EvennessRatio(ones: nat, bits: HashBits): (ratio: real)
    requires ones <= Bits(bits)
    ensures 0.0 <= ratio <= 1.0
    ensures ratio == 1.0 <==> 2 * ones == Bits(bits)
  {
    var zeros := Bits(bits) - ones;
    Min(ones, zeros) as real / Max(ones, zeros) as real
  }

  /** Swapping the roles of ones and zeros leaves the ratio unchanged. */
  lemma EvennessRatioSymmetric(ones: nat, bits: HashBits)
    requires ones <= Bits(bits)
    ensures EvennessRatio(ones, bits) == EvennessRatio(Bits(bits) - ones, bits)
  {
  }

  /** A valid hash is balanced exactly when its evenness ratio is 1. */
  lemma BalancedIffRatioOne(hex: string, bits: HashBits)
    requires ValidHashInput(hex, bits)
    ensures Popcount(hex) <= Bits(bits)
    ensures IsBalanced(hex) <==> EvennessRatio(Popcount(hex), bits) == 1.0
  {
    assert StripPrefix(hex) == hex[2..];
    BalancedIffHalfOnes(hex, bits);
    var ratio := EvennessRatio(Popcount(hex), bits);
    assert ratio == 1.0 <==> 2 * Popcount(hex) == Bits(bits);
  }
}
