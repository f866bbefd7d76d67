# HashCanon hash structural analysis engine, in Dafny

HashCanon draws a 256-bit or 160-bit hash as a mandala. The hash has 4 rings
and N sectors: N = 64 for 256-bit hashes and 40 for 160-bit hashes. Hex digit
`s` of the hash fills sector `s`. Bit `r` of that digit, counted from the most
significant bit, is the cell at ring `r`: 1 is a wall and 0 is open. From this
grid the engine derives three traits, and each trait gets a star rating.

- **Evenness**: the ratio min(ones, zeros) / max(ones, zeros), shown with two
  decimals. A hash is *balanced* when exactly half of its bits are ones.
- **Passages**: the number of connected open regions that touch the inner ring
  (ring 0) and reach the outer ring (ring 3). Cells are adjacent along a ring,
  which wraps around, and between neighbouring rings in the same sector. The
  engine counts them with a breadth-first flood fill.
- **Crown**: the engine lists every circular span of at least 2 sectors that
  reads the same forwards and backwards in all four rings. It keeps only the
  *maximal* spans, those not contained in another span, ordered by start. The
  crown is `"<longest length>:<how many spans have it>"`, or `"—"` when there
  is none.

Ratings come from fixed tables: evenness bins, a passage-count table and
observed crown frequencies. The result is 0–5 stars, or "★★★★★+" for values
outside the table.

The model is made of pure functions over immutable values. The flood fill and
the passage count are methods with loops (`PushNeighbours`, `FloodFill`,
`CountPassages`); the trait block `ComputeTraits` is a loop-free method. Each
module follows one part of the source:

| module | file | models |
|---|---|---|
| `Hex` | hex.dfy | hash widths, the `0x` prefix, input validity |
| `BitMath` | bitmath.dfy | `popcount`, the 4-bit table, digit → bits |
| `BitGrid` | bitgrid.dfy | `hexToGrid` (both copies) |
| `Balance` | balance.dfy | `isBalanced`, the evenness ratio |
| `Connectivity` | connectivity.dfy | adjacency, paths, and the reference passage count |
| `Passages` | passages.dfy | `countPassages` (breadth-first flood fill) |
| `CircularSpans` | spans.dfy | `isCircularPalindrome`, `circularSlice`, `covers` |
| `MaximalSymmetries` | maximal.dfy | `uniqMaxSymmetries` (sort, greedy filter, sort) |
| `Symmetries` | symmetries.dfy | `findSymmetries`, `symmetryRanks` |
| `Crown` | crown.dfy | `pickCrown` and the `"<rank>:<count>"` keys |
| `Rarity` | rarity.dfy | the star tables and `getRarityStars` |
| `Features` | features.dfy | the trait block of the features panel |

Main results:

- `CountPassages` returns exactly the number of regions that reach the rim. The
  reference count is defined over paths, so it names no queue and no visited
  array.
- `FindSymmetries` returns exactly the maximal symmetric spans. Every reported
  span is symmetric with the right hex slice. Every symmetric span lies inside a
  reported one. No reported span covers another, and starts strictly increase.
- `covers` is circular interval containment.
- The half-length check of `isCircularPalindrome` is equivalent to the full
  palindrome property.
- The crown key reads back as the longest length and its count.
- Each crown frequency table sums to exactly 1.
- The displayed evenness reaches the top bin exactly for balanced hashes.

## Model

| member | source | states |
|---|---|---|
| Hex.Sectors | src/utils/symmetry.ts:22 | a hash has N = 64 sectors at 256 bits and 40 at 160 bits, four bits per sector |
| Hex.StripPrefix | src/utils/bitMath.ts:13 | the digits are the input with a leading "0x" removed, or the input itself when it has none |
| Hex.StripIdempotent | src/utils/featureAnalysis.ts:62 | stripping an already stripped digit string changes nothing, so passing `clean` into a helper that strips again is harmless |
| Hex.ValidInputIsWellFormed | src/utils/mandala.ts:58 | every string the UI accepts as a hash ("0x", then exactly N hex digits) meets the engine's input contract |
| BitMath.Pop4Correct | src/utils/bitMath.ts:22 | entry v of the 4-bit popcount table is the number of one-bits in v's four-bit binary form |
| BitMath.Pop4Table | src/utils/bitMath.ts:22 | the table entry at v equals the number of set bits among v's four bits, from the 8s bit down |
| BitMath.NibbleBitsMsbFirst | src/utils/featureAnalysis.ts:65-69 | `toString(2).padStart(4,'0')` of a digit lists its bits from the most significant down |
| BitMath.PopcountAppend | src/utils/bitMath.ts:12-19 | popcount of a concatenation is the sum of the popcounts |
| BitMath.PopcountIgnoresPrefix | src/utils/bitMath.ts:13 | popcount gives the same result with or without the "0x" prefix |
| BitMath.BinIndex | src/utils/featureAnalysis.ts:63-70 | bit 4i+r of the expanded binary string is bit r (from the top) of digit i |
| BitMath.PopcountCountsBits | src/utils/bitMath.ts:12-19 | summing the table entries over the digits counts the one-bits of the expanded binary string |
| BitGrid.GridOf | src/utils/featureAnalysis.ts:61-80 | the grid is 4 by N, and cell (r, s) is bit r, from the top, of hex digit s |
| BitGrid.GridCopiesAgree | src/utils/symmetry.ts:84-103 | the two copies of `hexToGrid` build the same grid for a hash, whether or not it carries "0x" |
| BitGrid.PopcountIsGridOnes | src/utils/bitMath.ts:12-19 | the hash's popcount equals the number of walls in the first k columns of its grid |
| BitGrid.PopcountIsGridOnesOfHex | src/components/FeaturesSection.tsx:41 | the `ones` shown in the panel equal the number of wall cells of the hash's grid |
| Balance.IsBalanced | src/utils/featureAnalysis.ts:10-14 | a hash is balanced exactly when twice its one-bits equal the bit length `(len-2)*4` |
| Balance.BalancedIffHalfOnes | src/utils/featureAnalysis.ts:6-14 | for a valid hash, balanced means exactly bits/2 one-bits |
| Balance.EvennessRatio | src/components/FeaturesSection.tsx:41-44 | the ratio min/max lies in [0, 1] and equals 1 exactly when ones and zeros are equal |
| Balance.EvennessRatioSymmetric | src/components/FeaturesSection.tsx:44 | swapping ones and zeros leaves the ratio unchanged |
| Balance.BalancedIffRatioOne | src/utils/featureAnalysis.ts:10-14 | a valid hash is balanced exactly when its evenness ratio is 1 |
| Connectivity.Candidates | src/utils/featureAnalysis.ts:41-44 | the four neighbour candidates stay inside the sector range and at most one ring away |
| Connectivity.NextSectorValue | src/utils/featureAnalysis.ts:43 | `(c + 1) % sectors` steps to the next sector, wrapping from N-1 to 0 |
| Connectivity.PrevSectorValue | src/utils/featureAnalysis.ts:43 | `(c - 1 + sectors) % sectors` steps to the previous sector, wrapping from 0 to N-1 |
| Connectivity.SectorStepsInverse | src/utils/featureAnalysis.ts:43 | stepping forward and back along a ring returns to the start |
| Connectivity.AdjacentSymmetric | src/utils/featureAnalysis.ts:41-48 | the neighbour relation of the flood fill is symmetric |
| Connectivity.ConnectedEndsOpen | src/utils/featureAnalysis.ts:36 | only open cells are ever connected |
| Connectivity.ConnectedRefl | src/utils/featureAnalysis.ts:30-37 | an open cell is connected to itself |
| Connectivity.ConnectedStep | src/utils/featureAnalysis.ts:45-48 | an open neighbour of a reached cell is reached |
| Connectivity.ConnectedTrans | src/utils/featureAnalysis.ts:34-49 | connectivity is transitive |
| Connectivity.ConnectedSymmetric | src/utils/featureAnalysis.ts:34-49 | connectivity is symmetric, so components are well defined |
| Connectivity.CountStarts | src/utils/featureAnalysis.ts:27-52 | among the first k sectors of ring 0, at most k start a passage |
| Connectivity.StartsInDistinctComponents | src/utils/featureAnalysis.ts:27-28 | two sectors that each start a passage lie in different components, so no region is counted twice |
| Connectivity.ComponentHasStart | src/utils/featureAnalysis.ts:27-52 | every inner-ring cell of a region that reaches the rim is connected to the first sector of its region, and that sector starts a passage, so no region is missed |
| Passages.Mark | src/utils/featureAnalysis.ts:37 | marking a cell visited adds exactly that cell to the visited set |
| Passages.MarkShrinksUnmarked | src/utils/featureAnalysis.ts:34-37 | each newly visited cell shrinks the unvisited set, so the breadth-first loop terminates |
| Passages.ClosedReach | src/utils/featureAnalysis.ts:28 | once every explored region is closed, a visited cell has its whole component visited |
| Passages.PushNeighbours | src/utils/featureAnalysis.ts:41-48 | the queue grows only by open, unvisited neighbours of the cell, and every such neighbour is enqueued |
| Passages.FillComplete | src/utils/featureAnalysis.ts:34-51 | when the queue runs empty, the visited cells of this fill are exactly the start's component, and `reachedEdge` holds exactly when that component touches ring 3 |
| Passages.FloodFill | src/utils/featureAnalysis.ts:30-49 | the breadth-first fill from an open start visits exactly its component, each cell once, and reports whether the component reaches the outer ring |
| Passages.ReachedBeforeNext | src/utils/featureAnalysis.ts:27-28 | cells explored before sector s stay explored before sector s+1 |
| Passages.CountPassages | src/utils/featureAnalysis.ts:20-54 | the count equals the number of regions that join ring 0 to ring 3, and is at most N |
| Passages.CountPassagesOfHex | src/utils/featureAnalysis.ts:20-23 | the passage count of a hash is that of its grid |
| Passages.NoStartsNoPassages | src/utils/featureAnalysis.ts:27-52 | with no passage start among the first k sectors, the count over them is 0 |
| Passages.SealedHasNoPassages | src/utils/featureAnalysis.ts:28 | a grid whose inner ring is all walls has no passage |
| Passages.InnerRingOnlyHasNoPassages | src/utils/featureAnalysis.ts:39 | with rings 1 to 3 all walls, nothing reaches the rim and there is no passage |
| Passages.RingZeroConnected | src/utils/featureAnalysis.ts:43 | in an all-open grid, the wrap-around ring connects sector 0 to every sector |
| Passages.AllOpenHasOnePassage | src/utils/featureAnalysis.ts:20-54 | an all-open grid is a single passage |
| Passages.AllZeroHashOnePassage | src/utils/featureAnalysis.ts:20-54 | the all-zero hash has exactly one passage |
| Passages.AllOnesHashNoPassage | src/utils/featureAnalysis.ts:20-54 | the all-"f" hash has no passage |
| Passages.AllSevensHashNoPassage | src/utils/featureAnalysis.ts:20-54 | the all-"7" hash (inner ring open, outer rings walls) has no passage |
| CircularSpans.RowMirrored | src/utils/symmetry.ts:65-69 | the inner loop from k succeeds exactly when every position from k to the middle mirrors its partner in that ring |
| CircularSpans.IsCircularPalindrome | src/utils/symmetry.ts:56-72 | comparing the first `len >> 1` positions against their mirrors is equivalent to the whole span reading the same both ways in all four rings |
| CircularSpans.ModOnce | src/utils/symmetry.ts:77 | an index below 2L wraps at most once |
| CircularSpans.CircularSlice | src/utils/symmetry.ts:75-81 | the slice has `len` characters, and character k is `str[(start + k) mod L]` |
| CircularSpans.CircularSliceWhole | src/utils/symmetry.ts:75-81 | the slice of the whole circle from sector 0 is the digit string itself |
| CircularSpans.JsRem | src/utils/symmetry.ts:116-117 | the language's `%` agrees with the mathematical remainder on non-negative operands |
| CircularSpans.CoversFrom | src/utils/symmetry.ts:115-120 | the loop succeeds exactly when every remaining position of b falls within a's span |
| CircularSpans.RelPosValue | src/utils/symmetry.ts:116-117 | the relative position of sector bStart+k is its clockwise distance from aStart |
| CircularSpans.CoversIff | src/utils/symmetry.ts:109-121 | a covers b exactly when b is empty, a is the full circle, or b starts d sectors after a with d + bLen <= aLen |
| CircularSpans.CoversRefl | src/utils/symmetry.ts:109-121 | every span covers itself |
| CircularSpans.FullSpanCoversAll | src/utils/symmetry.ts:109-121 | a full-circle span covers every span |
| CircularSpans.ShorterNeverCovers | src/utils/symmetry.ts:109-121 | a span never covers a longer one |
| CircularSpans.EqualLengthCoversSameStart | src/utils/symmetry.ts:109-121 | two spans of one length below N cover each other exactly when they share the start |
| CircularSpans.SameStartLongerCovers | src/utils/symmetry.ts:109-121 | of two spans with a common start, the longer covers the shorter |
| MaximalSymmetries.InsertByLength | src/utils/symmetry.ts:125 | inserting into the length order adds exactly one element |
| MaximalSymmetries.SortByLengthDesc | src/utils/symmetry.ts:125 | sorting by length permutes the list |
| MaximalSymmetries.InsertByLengthSorted | src/utils/symmetry.ts:125 | insertion keeps the list in non-increasing length |
| MaximalSymmetries.SortByLengthSorted | src/utils/symmetry.ts:125 | `sort((a, b) => b.length - a.length)` yields a permutation in non-increasing length |
| MaximalSymmetries.SortByLengthHead | src/utils/symmetry.ts:125 | the sort is stable: the first element of greatest length comes first |
| MaximalSymmetries.InsertByLengthHead | src/utils/symmetry.ts:125 | a span at least as long as the list's first goes in front |
| MaximalSymmetries.InsertShorterAfterHead | src/utils/symmetry.ts:125 | a span shorter than the list's first leaves that first in front |
| MaximalSymmetries.InsertByStart | src/utils/symmetry.ts:129 | inserting into the start order adds exactly one element |
| MaximalSymmetries.SortByStart | src/utils/symmetry.ts:129 | sorting by start permutes the list |
| MaximalSymmetries.InsertByStartSorted | src/utils/symmetry.ts:129 | insertion keeps starts non-decreasing |
| MaximalSymmetries.InsertByStartStrict | src/utils/symmetry.ts:129 | inserting a new start into strictly increasing starts keeps them strict |
| MaximalSymmetries.SortByStartSorted | src/utils/symmetry.ts:129 | `sort((a, b) => a.start - b.start)` yields a permutation in start order, strictly increasing when the starts differ |
| MaximalSymmetries.AnyCovers | src/utils/symmetry.ts:126 | `keep.some(covers …)` holds exactly when some kept span covers the candidate |
| MaximalSymmetries.KeepMaximal | src/utils/symmetry.ts:124-128 | the greedy pass only appends to `keep`, and only candidates taken from the input |
| MaximalSymmetries.KeepMaximalNoneCoversLater | src/utils/symmetry.ts:126-127 | no kept span covers one kept after it |
| MaximalSymmetries.KeepMaximalComplete | src/utils/symmetry.ts:126-127 | every candidate is covered by some kept span: either itself or the span that made it nested |
| MaximalSymmetries.KeepMaximalSorted | src/utils/symmetry.ts:125-127 | the kept spans stay in non-increasing length |
| MaximalSymmetries.MutuallyUncovered | src/utils/symmetry.ts:123-130 | in a length-ordered list where no span covers a later one, no span covers any other, and starts are distinct |
| MaximalSymmetries.UniqMaxSymmetries | src/utils/symmetry.ts:123-130 | the filter returns only input spans |
| MaximalSymmetries.KeptCorrect | src/utils/symmetry.ts:124-128 | before the final sort, the kept spans cover all input spans, none covers another, and starts are distinct |
| MaximalSymmetries.SameMembers | src/utils/symmetry.ts:129 | a permutation has the same members |
| MaximalSymmetries.RearrangedUncovered | src/utils/symmetry.ts:129 | re-sorting the kept spans keeps them mutually uncovered |
| MaximalSymmetries.UniqMaxCorrect | src/utils/symmetry.ts:123-130 | the result covers every input span, no result span covers another, and results are in strictly increasing start order |
| Symmetries.Scan | src/utils/symmetry.ts:29-39 | the loops from candidate (start, len) on report exactly the symmetric spans tried from there, each with its circular slice, in the order the candidates are tried |
| Symmetries.ScanNextStart | src/utils/symmetry.ts:29-30 | after the last length of a start the search moves on to the next start, and no symmetric span is skipped |
| Symmetries.ScanHit | src/utils/symmetry.ts:31-37 | a symmetric candidate is pushed with its slice, ahead of every span found later |
| Symmetries.ScanMiss | src/utils/symmetry.ts:31 | a candidate that is not symmetric is not reported, and nothing symmetric is lost |
| Symmetries.FindSymmetries | src/utils/symmetry.ts:21-41 | every reported span is symmetric in all rings and carries its circular hex slice; every symmetric span of length 2..N lies inside a reported one; no reported span covers another; starts strictly increase |
| Symmetries.KeepAfterFullSpan | src/utils/symmetry.ts:126-127 | once a full-circle span is kept, every later candidate is nested |
| Symmetries.KeepFirst | src/utils/symmetry.ts:126-127 | the first candidate is always kept |
| Symmetries.UniqMaxWithFullSpan | src/utils/symmetry.ts:123-130 | with a full-circle span among the input, the result is that span alone, namely the first one the scan reports |
| Symmetries.FullCircleFound | src/utils/symmetry.ts:29-39 | the search reports the first full-circle symmetry, with its slice, after shorter spans only |
| Symmetries.FullCircleSymmetry | src/utils/symmetry.ts:21-41 | a hash that is symmetric over the full circle has exactly one maximal symmetry: the full circle from the first start where it is symmetric |
| Symmetries.RepeatedDigitGridSymmetric | src/utils/symmetry.ts:56-72 | the grid of a repeated-digit hash reads the same both ways around the whole circle |
| Symmetries.RepeatedDigitHashSymmetry | src/utils/symmetry.ts:21-41 | a hash of one repeated digit has the single symmetry (0, N, the whole hash) |
| Symmetries.AllZeroHashSymmetry | src/utils/symmetry.ts:21-41 | the all-zero hash has the single symmetry (0, N, the whole hash) |
| Symmetries.CountLength | src/utils/symmetry.ts:46-47 | the count of spans of length L is zero exactly when no span has that length |
| Symmetries.TallyLengths | src/utils/symmetry.ts:45-48 | keys of the tally are exactly the lengths present, and each value is the positive number of spans of that length |
| Symmetries.TallyStepKeys | src/utils/symmetry.ts:46-47 | one more symmetry adds its length to the tallied lengths and no other |
| Symmetries.TallyStepCounts | src/utils/symmetry.ts:47 | one more symmetry raises the tally of its length by one and keeps every other tally |
| Symmetries.SymmetryRanks | src/utils/symmetry.ts:44-49 | the ranks map holds exactly the lengths of the hash's symmetries, each in 2..N, with how many symmetries have it |
| Symmetries.SumOverRemove | src/utils/symmetry.ts:44-49 | a sum over the keys splits off one key |
| Symmetries.SumOverAgree | src/utils/symmetry.ts:44-49 | maps that agree on the keys have equal sums over them |
| Symmetries.SumIncrement | src/utils/symmetry.ts:47 | one `(out[len] or 0) + 1` step raises the total tally by one |
| Symmetries.RanksTotal | src/utils/symmetry.ts:44-49 | the tallies add up to the number of symmetries |
| Symmetries.HashRanksTotal | src/utils/symmetry.ts:44-49 | the counts in a hash's `symmetryRanks` add up to the number of its symmetries |
| Crown.DigitChar | src/components/FeaturesSection.tsx:27 | a digit below 10 is written as a decimal character |
| Crown.DecimalDigits | src/components/FeaturesSection.tsx:27 | `String(k)` is a non-empty decimal numeral without a leading zero (except for 0) |
| Crown.DigitCharValue | src/components/FeaturesSection.tsx:27 | the character written for digit d reads back as d |
| Crown.DecimalRoundTrip | src/components/FeaturesSection.tsx:25-27 | reading back a number's numeral gives the number |
| Crown.DecimalInjective | src/components/FeaturesSection.tsx:25-27 | different numbers get different numerals |
| Crown.CrownKeyRoundTrip | src/components/FeaturesSection.tsx:27 | the key `"<rank>:<count>"` parses back to exactly (rank, count) |
| Crown.NoCrownIsNotAKey | src/components/FeaturesSection.tsx:24 | "—" does not parse as a `"<rank>:<count>"` key |
| Crown.MaxExists | src/components/FeaturesSection.tsx:25 | a non-empty set of ranks has a greatest element |
| Crown.MaxKey | src/components/FeaturesSection.tsx:25 | the `Math.max` reduction over the keys yields a key that no other key exceeds |
| Crown.PickCrown | src/components/FeaturesSection.tsx:22-28 | "—" exactly for an empty map; otherwise exactly the string `${top}:${ranks[top]}` for the greatest rank `top` present |
| Crown.PickCrownReadsBack | src/components/FeaturesSection.tsx:22-28 | a non-empty crown parses back to the greatest rank present and its count |
| Crown.CrownTop | src/components/FeaturesSection.tsx:25-27 | a non-empty crown is spelled from a key no other key exceeds and that key's tally |
| Crown.CrownOfTally | src/components/FeaturesSection.tsx:22-28 | the crown of a symmetry list is "—" exactly for the empty list; otherwise it is exactly the key "L:c" spelled from the longest length L and the number c >= 1 of spans of that length |
| Crown.CrownOfSingle | src/components/FeaturesSection.tsx:22-28 | a single symmetry of length L gives the crown "L:1" |
| Crown.CrownOfBoundedList | src/components/FeaturesSection.tsx:22-28 | for symmetries whose lengths lie in 2..N, the crown is "—" exactly for none, and otherwise is exactly the key "L:c" of the longest length L, within 2..N, and its count c >= 1 |
| Crown.CrownOfHash | src/components/FeaturesSection.tsx:47-49 | a hash's crown is "—" exactly when it has no symmetry; otherwise it is exactly the string `${L}:${c}` for the longest length L of its symmetries (2 <= L <= N) and the number c >= 1 of symmetries of that length |
| Rarity.Repeat | src/utils/rarity.ts:9-19 | a run of k copies of one character |
| Rarity.Render | src/utils/rarity.ts:9-19 | a rating of k stars is 5 characters whose first k are filled stars; "★★★★★+" is 6 characters |
| Rarity.RenderInjective | src/utils/rarity.ts:9-31 | different ratings render as different strings |
| Rarity.EvennessCuts | src/utils/rarity.ts:9-31 | each width has seven bin bounds |
| Rarity.EvennessLadder | src/utils/rarity.ts:11-18 | the if-chain always yields a valid rating |
| Rarity.StarsEvenness | src/utils/rarity.ts:9-31 | a ratio outside [0, 1] rates "★★★★★+"; [0.99, 1] rates 2 stars; below the last bound rates "★★★★★+" |
| Rarity.EvennessAntitone | src/utils/rarity.ts:9-31 | below the top bin, a more even hash never rates rarer |
| Rarity.Round2 | src/components/FeaturesSection.tsx:44 | `toFixed(2)` keeps the ratio in [0, 1] and reaches 0.99 exactly from 0.985 on |
| Rarity.DivBelow | src/components/FeaturesSection.tsx:44 | a < c·b with b > 0 gives a/b < c |
| Rarity.DivAtMost | src/components/FeaturesSection.tsx:44 | a <= c·b with b > 0 gives a/b <= c |
| Rarity.RatioBelowTop | src/components/FeaturesSection.tsx:44 | an unbalanced split of 160 or 256 bits has a ratio of at most 127/129, so below 0.985 |
| Rarity.TopBinIffHalfOnes | src/components/FeaturesSection.tsx:41-44 | the displayed ratio reaches the top bin (0.99) exactly when ones equal zeros |
| Rarity.BalancedIffTopBin | src/utils/featureAnalysis.ts:10-14 | a valid hash is balanced exactly when its displayed evenness is in the top bin |
| Rarity.PassagesTable | src/utils/rarity.ts:40-68 | the tables rate counts 0 to 11 (256 bits) and 0 to 8 (160 bits), each with 0–5 stars |
| Rarity.StarsPassages | src/utils/rarity.ts:150-154 | "★★★★★+" (the table's default) exactly for a count outside 0..11 at 256 bits or 0..8 at 160 bits |
| Rarity.PassagesUnimodal | src/utils/rarity.ts:40-68 | 0 stars exactly at the mode (5 passages at 256 bits, 3 at 160), and never fewer stars moving further from it on either side (10 and 11 passages both rate 5 stars at 256 bits, 7 and 8 at 160) |
| Rarity.Lookup | src/utils/rarity.ts:131 | the own-entry part of `table[key]`: the first entry with the key, or none when no entry has it |
| Rarity.SumFreqAppend | src/utils/rarity.ts:76-117 | frequencies add up over concatenated tables |
| Rarity.LookupAppend | src/utils/rarity.ts:130-133 | a key absent from the front of a table is looked up in the rest |
| Rarity.Crown256Rank2Sum | src/utils/rarity.ts:77-79 | the rank-2 crown frequencies at 256 bits add up to 0.01292 |
| Rarity.Crown256Rank3Sum | src/utils/rarity.ts:80-83 | the rank-3 crown frequencies at 256 bits add up to 0.59100 |
| Rarity.Crown256Rank4To5Sum | src/utils/rarity.ts:84-85 | the rank-4 and rank-5 crown frequencies at 256 bits add up to 0.36498 |
| Rarity.Crown256Rank6UpSum | src/utils/rarity.ts:86-94 | the crown frequencies of rank 6 and up at 256 bits add up to 0.03088 |
| Rarity.Crown256GroupSums | src/utils/rarity.ts:76-96 | the four rank groups at 256 bits have those sums |
| Rarity.Crown160Rank2Sum | src/utils/rarity.ts:100-101 | the rank-2 crown frequencies at 160 bits add up to 0.06014 |
| Rarity.Crown160Rank3Sum | src/utils/rarity.ts:102-104 | the rank-3 crown frequencies at 160 bits add up to 0.66720 |
| Rarity.Crown160Rank4To5Sum | src/utils/rarity.ts:105-106 | the rank-4 and rank-5 crown frequencies at 160 bits add up to 0.24788 |
| Rarity.Crown160Rank6UpSum | src/utils/rarity.ts:107-115 | the crown frequencies of rank 6 and up at 160 bits add up to 0.02030 |
| Rarity.Crown160GroupSums | src/utils/rarity.ts:99-117 | the four rank groups at 160 bits have those sums |
| Rarity.SumOfGroups | src/utils/rarity.ts:76-117 | a table's sum is the sum of its groups plus the "—" entry |
| Rarity.CrownFreqSumsToOne | src/utils/rarity.ts:76-117 | each crown frequency table is a distribution: its entries sum to exactly 1 |
| Rarity.CrownFreqPositive | src/utils/rarity.ts:76-117 | every recorded frequency lies strictly between 0 and 1 |
| Rarity.StarsCrownByP | src/utils/rarity.ts:120-128 | "★★★★★+" exactly for `undefined`; otherwise 0–5 stars, and 5 stars for a non-numeric value, which fails every `>=` test |
| Rarity.CrownAntitone | src/utils/rarity.ts:120-128 | a more frequent crown never rates rarer |
| Rarity.ReadProperty | src/utils/rarity.ts:131 | `table[key]` yields a recorded frequency when the key is an entry, an inherited member exactly for an unlisted `Object.prototype` name, and `undefined` exactly otherwise |
| Rarity.InheritedNameShape | src/utils/rarity.ts:76-117 | no `Object.prototype` name starts with a digit or is "—" |
| Rarity.DigitLedAbsent | src/utils/rarity.ts:76-117 | a table of numeral keys has no entry under a key that does not start with a digit |
| Rarity.InheritedNamesUnrecorded | src/utils/rarity.ts:76-117 | no `Object.prototype` name is a key of either crown table |
| Rarity.InheritedNameRating | src/utils/rarity.ts:120-133 | a crown value such as "constructor" reads an inherited member and rates 5 stars at either width |
| Rarity.NumeralNotInherited | src/utils/rarity.ts:131 | a key starting with a digit names no inherited member |
| Rarity.StarsCrown | src/utils/rarity.ts:130-133 | "★★★★★+" exactly when the key is neither an entry of the width's table nor a name the table inherits from `Object.prototype` |
| Rarity.NoCrownAbsent | src/utils/rarity.ts:76-117 | "—" is not among the numeral keys |
| Rarity.DigitLedAppend | src/utils/rarity.ts:76-117 | tables of numeral keys concatenate to one |
| Rarity.CrownGroupsDigitLed | src/utils/rarity.ts:76-117 | every key of the rank groups starts with a decimal digit |
| Rarity.NoCrownLookup | src/utils/rarity.ts:95 | in a table of numeral keys ending with "—", looking up "—" finds that last entry |
| Rarity.NoCrownStars | src/utils/rarity.ts:95-116 | a hash without symmetry rates 5 stars at 256 bits (frequency 0.00022) and 4 stars at 160 bits (0.00448) |
| Rarity.NoCrownRating | src/utils/rarity.ts:130-133 | the same rating of "—", stated for either width |
| Rarity.AbsentAppend | src/utils/rarity.ts:76-117 | a key absent from two tables is absent from their concatenation |
| Rarity.FullCircleCrownUnrated | src/utils/rarity.ts:76-133 | the full-circle crowns "64:1" and "40:1" are in neither table and rate "★★★★★+" |
| Rarity.GetRarityStars | src/utils/rarity.ts:137-160 | null exactly for an unknown trait; otherwise a valid rating, with a NaN evenness rating "★★★★★+" |
| Features.ComputeTraits | src/components/FeaturesSection.tsx:38-54 | the panel's passage count is the number of regions joining ring 0 to ring 3 (at most N); the displayed ratio lies in [0, 1] and is in the top bin exactly for half ones (for valid input, exactly for balanced hashes), where it rates 2 stars; the crown is "—" exactly without symmetries and otherwise exactly the key "L:c" of the longest length and its count, and "—" rates 5 stars at 256 bits and 4 at 160; the shown ratio is min/max of ones and zeros to two decimals, and each rating is the passage, evenness or crown rating of the value shown beside it; all three ratings are valid |
| Features.TraitRatings | src/components/FeaturesSection.tsx:44-54 | the shown ratio is min/max of ones and zeros to two decimals, the crown is picked from the symmetry ranks, and each rating is `getRarityStars` of the value shown beside it |
| Features.EvennessTrait | src/components/FeaturesSection.tsx:41-44 | the block's ratio is in [0, 1], in the top bin exactly for half ones (for valid input, exactly for balanced hashes), and the top bin rates 2 stars |
| Features.CrownTrait | src/components/FeaturesSection.tsx:47-54 | the block's crown is "—" exactly without symmetries and otherwise exactly the key "L:c" of the longest length and its count, and "—" rates 5 stars at 256 bits and 4 at 160 |
| Features.CrownTextTrait | src/components/FeaturesSection.tsx:47-49 | the block's crown is "—" exactly without symmetries, and otherwise exactly the string `${L}:${c}` of the longest length L and its count c |
| Features.NoCrownRatingTrait | src/components/FeaturesSection.tsx:49-54 | a block with crown "—" rates it 5 stars at 256 bits and 4 at 160 |
| Features.TraitRatingsValid | src/components/FeaturesSection.tsx:52-54 | every rating of the block is 0–5 stars or "★★★★★+", never null |
| Features.RepeatedDigitCrown | src/components/FeaturesSection.tsx:47-49 | a hash of one repeated digit has the crown "N:1" |
| Features.FullCircleKeySpelled | src/components/FeaturesSection.tsx:27 | "N:1" is spelled "64:1" at 256 bits and "40:1" at 160 bits |
| Features.RepeatedDigitCrownUnrated | src/components/FeaturesSection.tsx:47-54 | the crown of a repeated-digit hash rates "★★★★★+" |

## Left out

- Rendering is out of scope. This covers the SVG mandala, the React components'
  markup, the symmetry details list, the toggle switch and the download and
  export buttons.
- Text-to-hash mode is left out. It calls SHA-256 through the browser crypto
  API, which is a foreign call.
- Input handling (`mandala.ts`) is modelled only through its validity test. The
  engine functions are modelled on well-formed hashes: N hex digits, with or
  without "0x". The source runs them on anything and yields meaningless numbers
  for malformed strings.
- Features.ComputeTraits: `FeaturesSection` returns null for an empty hex. The
  model requires a well-formed hash instead, which is never empty.
- Balance.IsBalanced: `BigInt(hex).toString(2).padStart(...)` is modelled as
  per-digit bit expansion. For a valid hash both give the same `(len-2)*4` bits.
- Rarity.Round2: `toFixed(2)` is modelled as exact round-half-up on real
  numbers. The binary floating-point form of the ratio is not modelled. The
  closest an unbalanced hash comes to the rounding boundary 0.985 is 127/129
  (about 0.98450, at 256 bits), a margin of about 0.0005 (`Rarity.RatioBelowTop`).
  That is far larger than the rounding error of a double.
- Rarity.GetRarityStars: the source takes a trait name and an untyped value,
  and converts it with `String` / `parseFloat`. The model takes a typed trait
  value. An evenness value that does not parse (NaN) is `Evenness(None)`, and
  any other trait name is `Unknown`.
- Rarity.PassagesTable: the source keys its tables by the string of the count.
  The model indexes by the count itself.
- Rarity.CrownFreq: the frequency objects are modelled as lists searched for
  the first matching key. The keys are distinct as written, but no lemma states
  it.
- Passages.CountPassages: the `local` list of each component is built but never
  read by the source. The model's flood fill returns it, and proves it is
  exactly the component.
- MaximalSymmetries.SortByLengthDesc: the stability of the length sort is proved
  only for the first element (SortByLengthHead). That is the only place where
  the order of equal lengths changes the result.
- The ratio and count strings shown in the panel are not modelled as text. The
  exceptions are the crown key and the star strings.

## Notes

- An all-open grid might be read as N passages, one per inner-ring sector.
  The code explores each region once and counts it once, so the all-zero hash
  has exactly one passage (`Passages.AllZeroHashOnePassage`). The model follows
  the code.
- The crown tables are plain object literals. So `table[key]` for a key such as
  "constructor" or "toString" yields the member inherited from
  `Object.prototype`, not `undefined`. Every `>=` comparison with that value is
  false, so the source rates such a key 5 stars rather than "★★★★★+". The model
  follows this: `Rarity.ReadProperty` and `Rarity.InheritedNameRating`.
