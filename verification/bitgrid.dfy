/** The 4 x N bit grid built from a hash: ring r of sector s is bit r, read
    most-significant bit first, of hex digit s. One definition serves both
    the passage analysis and the symmetry search. */
module BitGrid {
  import opened Hex
  import opened BitMath

  /** grid[ring][sector]; `true` is a one-bit (a wall), `false` a zero-bit (open). */
  type Grid = seq<seq<bool>>

  predicate GridShape(g: Grid, n: nat)
  {
    |g| == 4 && forall r :: 0 <= r < 4 ==> |g[r]| == n
  }

  lemma BinIndexAll(s: string)
    requires AllHex(s)
    ensures forall i, r :: 0 <= i < |s| && 0 <= r < 4 ==> Bin(s)[4 * i + r] == NibbleBit(DigitValue(s[i]), r)
  {
    forall i, r | 0 <= i < |s| && 0 <= r < 4
      ensures Bin(s)[4 * i + r] == NibbleBit(DigitValue(s[i]), r)
    {
      BinIndex(s, i, r);
    }
  }

  /** `hexToGrid` on a digit string: `grid[r][s] = bin[s * 4 + r]` for the
      first `n` digits. */
  function GridOf(clean: string, n: nat): (g: Grid)
    requires AllHex(clean) && n <= |clean|
    ensures GridShape(g, n)
    ensures forall r, s :: 0 <= r < 4 && 0 <= s < n ==> g[r][s] == NibbleBit(DigitValue(clean[s]), r)
  {
    BinIndexAll(clean);
    var bin := Bin(clean);
    seq(4, r requires 0 <= r < 4 => seq(n, s requires 0 <= s < n => bin[s * 4 + r]))
  }

  /** `hexToGrid(hex, bits)` of the passage analysis: strip "0x", then build. */
  function GridOfHex(hex: string, bits: HashBits): (g: Grid)
    requires WellFormedHex(hex, bits)
    ensures GridShape(g, Sectors(bits))
  {
    GridOf(StripPrefix(hex), Sectors(bits))
  }

  /** The symmetry search strips the prefix itself and hands the digits to its
      own copy of `hexToGrid`; handing the stripped digits to the passage
      analysis' copy (which strips again) yields the very same grid. */
  lemma GridCopiesAgree(hex: string, bits: HashBits)
    requires WellFormedHex(hex, bits)
    ensures WellFormedHex(StripPrefix(hex), bits)
    ensures GridOfHex(StripPrefix(hex), bits) == GridOf(StripPrefix(hex), Sectors(bits))
    ensures GridOfHex(hex, bits) == GridOf(StripPrefix(hex), Sectors(bits))
  {
    StripIdempotent(hex);
  }

  /** Number of one-bits in sector `s` (over the four rings). */
  function ColumnOnes(g: Grid, n: nat, s: nat): nat
    requires GridShape(g, n) && s < n
  {
    (if g[0][s] then 1 else 0) + (if g[1][s] then 1 else 0)
    + (if g[2][s] then 1 else 0) + (if g[3][s] then 1 else 0)
  }

  /** Number of one cells in sectors 0 .. k-1. */
  function GridOnes(g: Grid, n: nat, k: nat): nat
    requires GridShape(g, n) && k <= n
  {
    if k == 0 then 0 else GridOnes(g, n, k - 1) + ColumnOnes(g, n, k - 1)
  }

  /** popcount of a digit string equals the number of one cells of its grid. */
  lemma {:induction false} PopcountIsGridOnes(clean: string, n: nat, k: nat)
    requires AllHex(clean) && |clean| == n && k <= n
    ensures AllHex(clean[..k])
    ensures GridOnes(GridOf(clean, n), n, k) == DigitsPopcount(clean[..k])
  {
    if k > 0 {
      PopcountIsGridOnes(clean, n, k - 1);
      assert clean[..k][..k - 1] == clean[..k - 1];
      Pop4Correct(DigitValue(clean[k - 1]));
    }
  }

  /** popcount of a well-formed hash equals the number of one cells of its grid. */
  lemma PopcountIsGridOnesOfHex(hex: string, bits: HashBits)
    requires WellFormedHex(hex, bits)
    ensures Popcount(hex) == GridOnes(GridOfHex(hex, bits), Sectors(bits), Sectors(bits))
  {
    var clean := StripPrefix(hex);
    PopcountIsGridOnes(clean, Sectors(bits), Sectors(bits));
    assert clean[..Sectors(bits)] == clean;
  }
}
