/** Circular sector spans: the all-ring palindrome test, the wrap-aware hex
    slice and the containment test `covers` of the symmetry search. */
module CircularSpans {
  import opened BitGrid
  import opened Connectivity

  /** Sector `start + k` and its mirror `start + len - 1 - k` carry the same
      bit in ring r. */
  predicate MirrorPair(g: Grid, n: nat, start: nat, len: nat, r: nat, k: nat)
    requires ValidGrid(g, n) && r < 4
  {
    g[r][(start + k) % n] == g[r][(start + len - 1 - k) % n]
  }

  /** Reference definition: the span of `len` sectors from `start` (indices
      mod n) reads the same forwards and backwards in every ring. */
  predicate SymmetricSpan(g: Grid, n: nat, start: nat, len: nat)
    requires ValidGrid(g, n)
  {
    forall r: nat, k: nat :: r < 4 && k < len ==> MirrorPair(g, n, start, len, r, k)
  }

  /** The inner loop over `k < half` for ring r. */
  function RowMirrored(g: Grid, n: nat, start: nat, len: nat, r: nat, k: nat): (b: bool)
    requires ValidGrid(g, n) && r < 4
    ensures b <==> forall j: nat :: k <= j < len / 2 ==> MirrorPair(g, n, start, len, r, j)
    decreases len / 2 - k
  {
    if k >= len / 2 then true
    else if !MirrorPair(g, n, start, len, r, k) then false
    else RowMirrored(g, n, start, len, r, k + 1)
  }

  /** `isCircularPalindrome`: compares only the first half (`len >> 1`) of
      each ring against the mirrored second half; this is exactly the full
      palindrome property. */
  function IsCircularPalindrome(g: Grid, n: nat, start: nat, len: nat): (b: bool)
    requires ValidGrid(g, n)
    ensures b <==> SymmetricSpan(g, n, start, len)
  {
    var b := RowMirrored(g, n, start, len, 0, 0) && RowMirrored(g, n, start, len, 1, 0)
          && RowMirrored(g, n, start, len, 2, 0) && RowMirrored(g, n, start, len, 3, 0);
    if b then
      assert SymmetricSpan(g, n, start, len) by {
        forall r: nat, k: nat | r < 4 && k < len
          ensures MirrorPair(g, n, start, len, r, k)
        {
          assert RowMirrored(g, n, start, len, r, 0);
          var j: nat := len - 1 - k;
          if k >= len / 2 && j < len / 2 {
            assert MirrorPair(g, n, start, len, r, j);
            assert start + len - 1 - j == start + k;
          }
        }
      }
      b
    else
      b
  }

  /** `x % n` for 0 <= x < 2n: at most one wrap. */
  lemma ModOnce(x: int, n: int)
    requires n > 0 && 0 <= x < 2 * n
    ensures x % n == if x < n then x else x - n
  {
    if x >= n {
      assert 0 <= x - n < n;
      assert x == n + (x - n);
    }
  }

  /** `circularSlice`: the `len` characters from `start`, continuing at the
      beginning of the string past its end. */
  function CircularSlice(str: string, start: nat, len: nat): (r: string)
    requires start < |str| && len <= |str|
    ensures |r| == len
    ensures forall k :: 0 <= k < len ==> r[k] == str[(start + k) % |str|]
  {
    var L := |str|;
    ModOnce(start + len, L);
    var end := (start + len) % L;
    var r := if start + len <= L then str[start..start + len] else str[start..] + str[..end];
    assert forall k :: 0 <= k < len ==> r[k] == str[(start + k) % L] by {
      forall k | 0 <= k < len
        ensures r[k] == str[(start + k) % L]
      {
        ModOnce(start + k, L);
      }
    }
    r
  }

  /** The slice of the whole circle from sector 0 is the string itself. */
  lemma CircularSliceWhole(str: string)
    requires |str| > 0
    ensures CircularSlice(str, 0, |str|) == str
  {
    assert str[0..|str|] == str;
  }

  /** JavaScript's `%` (the remainder: truncates, keeps the sign of
      the dividend). */
  function JsRem(x: int, n: int): (r: int)
    requires n > 0
    ensures x >= 0 ==> r == x % n
  {
    if x >= 0 then x % n else -((-x) % n)
  }

  /** Position of sector `bStart + k` relative to `aStart`, as `covers` computes it. */
  function RelPos(aStart: int, bStart: int, k: int, n: nat): int
    requires n > 0
  {
    JsRem(JsRem(bStart + k, n) - aStart + n, n)
  }

  /** The loop of `covers` from offset k on. */
  function CoversFrom(aStart: int, aLen: int, bStart: int, bLen: int, n: nat, k: nat): (b: bool)
    requires n > 0
    ensures b <==> forall j :: k <= j < bLen ==> RelPos(aStart, bStart, j, n) < aLen
    decreases bLen - k
  {
    if k >= bLen then true
    else if RelPos(aStart, bStart, k, n) >= aLen then false
    else CoversFrom(aStart, aLen, bStart, bLen, n, k + 1)
  }

  /** `covers(aStart, aLen, bStart, bLen, sectors)`: every sector of span b
      lies within span a. */
  function Covers(aStart: int, aLen: int, bStart: int, bLen: int, n: nat): bool
    requires n > 0
  {
    CoversFrom(aStart, aLen, bStart, bLen, n, 0)
  }

  /** Clockwise distance from sector a to sector b. */
  function Offset(aStart: int, bStart: int, n: nat): int
  {
    if bStart >= aStart then bStart - aStart else bStart - aStart + n
  }

  lemma RelPosValue(aStart: int, bStart: int, k: int, n: nat)
    requires 0 <= aStart < n && 0 <= bStart < n && 0 <= k < n
    ensures 0 <= Offset(aStart, bStart, n) < n
    ensures RelPos(aStart, bStart, k, n)
         == if Offset(aStart, bStart, n) + k < n then Offset(aStart, bStart, n) + k
            else Offset(aStart, bStart, n) + k - n
  {
    ModOnce(bStart + k, n);
    var pos := (bStart + k) % n;
    ModOnce(pos - aStart + n, n);
  }

  /** `covers` is circular interval containment: an empty b, a full-circle a,
      or b starting `d` sectors after a's start with d + bLen <= aLen. */
  lemma CoversIff(aStart: int, aLen: int, bStart: int, bLen: int, n: nat)
    requires 0 <= aStart < n && 0 <= bStart < n && 0 <= bLen <= n
    ensures Covers(aStart, aLen, bStart, bLen, n)
        <==> bLen == 0 || aLen >= n || Offset(aStart, bStart, n) + bLen <= aLen
  {
    var d := Offset(aStart, bStart, n);
    forall j | 0 <= j < bLen
      ensures RelPos(aStart, bStart, j, n) == if d + j < n then d + j else d + j - n
    {
      RelPosValue(aStart, bStart, j, n);
    }
    RelPosValue(aStart, bStart, 0, n);
    if bLen > 0 && aLen < n && d + bLen > aLen {
      var j := if d + bLen <= n then bLen - 1 else n - 1 - d;
      assert RelPos(aStart, bStart, j, n) >= aLen;
    }
  }

  /** Every span within the circle covers itself. */
  lemma CoversRefl(start: int, len: int, n: nat)
    requires 0 <= start < n && 0 <= len <= n
    ensures Covers(start, len, start, len, n)
  {
    CoversIff(start, len, start, len, n);
  }

  /** A full-circle span covers every span. */
  lemma FullSpanCoversAll(aStart: int, bStart: int, bLen: int, n: nat)
    requires 0 <= aStart < n && 0 <= bStart < n && 0 <= bLen <= n
    ensures Covers(aStart, n, bStart, bLen, n)
  {
    CoversIff(aStart, n, bStart, bLen, n);
  }

  /** A span never covers a longer one. */
  lemma ShorterNeverCovers(aStart: int, aLen: int, bStart: int, bLen: int, n: nat)
    requires 0 <= aStart < n && 0 <= bStart < n && 0 <= aLen < bLen <= n
    ensures !Covers(aStart, aLen, bStart, bLen, n)
  {
    CoversIff(aStart, aLen, bStart, bLen, n);
  }

  /** Two spans of one length below the full circle cover each other only when
      they start at the same sector. */
  lemma EqualLengthCoversSameStart(aStart: int, bStart: int, len: int, n: nat)
    requires 0 <= aStart < n && 0 <= bStart < n && 0 < len < n
    ensures Covers(aStart, len, bStart, len, n) <==> aStart == bStart
  {
    CoversIff(aStart, len, bStart, len, n);
  }

  /** Spans with a common start: the longer covers the shorter. */
  lemma SameStartLongerCovers(start: int, aLen: int, bLen: int, n: nat)
    requires 0 <= start < n && 0 <= bLen <= aLen && bLen <= n
    ensures Covers(start, aLen, start, bLen, n)
  {
    CoversIff(start, aLen, start, bLen, n);
  }
}
