/** Rarity stars of the three traits (evenness, passages, crown), for
    256-bit and 160-bit hashes. A rating is 0..5 filled stars or the
    out-of-table rating "★★★★★+". */
module Rarity {
  import opened Hex
  import opened BitMath
  import opened Balance

  datatype Stars = Filled(count: nat) | Beyond

  predicate ValidStars(t: Stars)
  {
    t.Filled? ==> t.count <= 5
  }

  /** How rare a rating says the value is: 0..5, and 6 for "★★★★★+". */
  function Rank(t: Stars): nat
  {
    match t
    case Filled(k) => k
    case Beyond => 6
  }

  function Repeat(c: char, k: nat): (s: string)
    ensures |s| == k && forall i :: 0 <= i < k ==> s[i] == c
  {
    if k == 0 then [] else [c] + Repeat(c, k - 1)
  }

  /** The rating as `rarity.ts` spells it: k filled and 5 - k empty stars. */
  function Render(t: Stars): (s: string)
    requires ValidStars(t)
    ensures |s| == if t.Beyond? then 6 else 5
    ensures t.Filled? ==> forall i :: 0 <= i < 5 ==> (s[i] == '★' <==> i < t.count)
  {
    match t
    case Beyond => "★★★★★+"
    case Filled(k) => Repeat('★', k) + Repeat('☆', 5 - k)
  }

  /** Different ratings are spelled differently. */
  lemma RenderInjective(a: Stars, b: Stars)
    requires ValidStars(a) && ValidStars(b) && Render(a) == Render(b)
    ensures a == b
  {
    if a.Filled? && b.Filled? {
      var i := if a.count < b.count then a.count else b.count;
      if i < 5 {
        assert Render(a)[i] == Render(b)[i];
      }
    }
  }

  // ---------------------------------------------------------------------
  // Evenness

  /** The lower bounds of the seven evenness bins, highest first. */
  function EvennessCuts(bits: HashBits): (cuts: seq<real>)
    ensures |cuts| == 7
  {
    if bits == Bits256 then [0.99, 0.93, 0.89, 0.83, 0.78, 0.72, 0.68]
    else [0.99, 0.95, 0.90, 0.85, 0.80, 0.75, 0.70]
  }

  /** The rating of each evenness bin, in the order of the cuts. */
  const EvennessBinStars: seq<Stars> :=
    [Filled(2), Filled(0), Filled(1), Filled(2), Filled(3), Filled(4), Filled(5)]

  /** The if-chain of `starsEvenness256`/`starsEvenness160` from bin i on. */
  function EvennessLadder(r: real, cuts: seq<real>, i: nat): (t: Stars)
    requires |cuts| == 7 && i <= 7
    ensures ValidStars(t)
    decreases 7 - i
  {
    if i == 7 then Beyond
    else if r >= cuts[i] then EvennessBinStars[i]
    else EvennessLadder(r, cuts, i + 1)
  }

  /** `starsEvenness256(r)` / `starsEvenness160(r)`. */
  function StarsEvenness(r: real, bits: HashBits): (t: Stars)
    ensures ValidStars(t)
    ensures (r < 0.0 || r > 1.0) ==> t == Beyond
    ensures 0.99 <= r <= 1.0 ==> t == Filled(2)
    ensures 0.0 <= r < EvennessCuts(bits)[6] ==> t == Beyond
  {
    if r < 0.0 || r > 1.0 then Beyond
    else EvennessLadder(r, EvennessCuts(bits), 0)
  }

  /** Below the top bin, a more even hash never rates rarer. */
  lemma EvennessAntitone(r1: real, r2: real, bits: HashBits)
    requires 0.0 <= r1 <= r2 < 0.99
    ensures Rank(StarsEvenness(r2, bits)) <= Rank(StarsEvenness(r1, bits))
  {
  }

  /** The ratio as displayed: `toFixed(2)` (round half up, for r >= 0). */
  function Round2(x: real): (y: real)
    requires 0.0 <= x <= 1.0
    ensures 0.0 <= y <= 1.0
    ensures y >= 0.99 <==> x >= 0.985
  {
    (x * 100.0 + 0.5).Floor as real / 100.0
  }

  /** The displayed evenness ratio of a hash with `ones` one-bits. */
  function DisplayedEvenness(ones: nat, bits: HashBits): real
    requires ones <= Bits(bits)
  {
    Round2(EvennessRatio(ones, bits))
  }

  lemma DivBelow(a: real, b: real, c: real)
    requires b > 0.0 && a < c * b
    ensures a / b < c
  {
    var q := a / b;
    assert a == q * b;
    assert (c - q) * b > 0.0;
  }

  lemma DivAtMost(a: real, b: real, c: real)
    requires b > 0.0 && a <= c * b
    ensures a / b <= c
  {
    var q := a / b;
    assert a == q * b;
    assert (c - q) * b >= 0.0;
  }

  /** The most even unbalanced split, 127 against 129 ones at 256 bits, is
      the closest any unbalanced ratio comes to the top bin. */
  lemma RatioBelowTop(m: real, big: real, h: real)
    requires 80.0 <= h <= 128.0 && 0.0 <= m <= h - 1.0 && big == 2.0 * h - m
    ensures m / big <= 127.0 / 129.0
    ensures m / big < 0.985
  {
    assert m <= (127.0 / 129.0) * big;
    DivAtMost(m, big, 127.0 / 129.0);
    assert m < 0.985 * big;
    DivBelow(m, big, 0.985);
  }

  /** The displayed ratio reaches the top bin (0.99) exactly for a hash with
      as many ones as zeros: no unbalanced hash rounds up to it. */
  lemma TopBinIffHalfOnes(ones: nat, bits: HashBits)
    requires ones <= Bits(bits)
    ensures DisplayedEvenness(ones, bits) >= 0.99 <==> 2 * ones == Bits(bits)
  {
    var h := Bits(bits) / 2;
    if 2 * ones != Bits(bits) {
      var zeros := Bits(bits) - ones;
      RatioBelowTop(Min(ones, zeros) as real, Max(ones, zeros) as real, h as real);
    }
  }

  /** For a valid hash, the evenness rating is the top bin's exactly when the
      hash is balanced. */
  lemma BalancedIffTopBin(hex: string, bits: HashBits)
    requires ValidHashInput(hex, bits)
    ensures Popcount(hex) <= Bits(bits)
    ensures IsBalanced(hex) <==> DisplayedEvenness(Popcount(hex), bits) >= 0.99
  {
    BalancedIffRatioOne(hex, bits);
    BalancedIffHalfOnes(hex, bits);
    TopBinIffHalfOnes(Popcount(hex), bits);
  }

  // ---------------------------------------------------------------------
  // Passages

  /** The passages tables, indexed by passage count; counts past the end
      take the default "★★★★★+". */
  function PassagesTable(bits: HashBits): (table: seq<Stars>)
    ensures |table| == if bits == Bits256 then 12 else 9
    ensures forall i :: 0 <= i < |table| ==> ValidStars(table[i]) && table[i].Filled?
  {
    if bits == Bits256 then
      [Filled(5), Filled(4), Filled(3), Filled(2), Filled(1), Filled(0),
       Filled(1), Filled(2), Filled(3), Filled(4), Filled(5), Filled(5)]
    else
      [Filled(4), Filled(2), Filled(1), Filled(0), Filled(1), Filled(2),
       Filled(4), Filled(5), Filled(5)]
  }

  /** `table[String(p)] ?? table.default`. */
  function StarsPassages(p: int, bits: HashBits): (t: Stars)
    ensures ValidStars(t)
    ensures t == Beyond <==> p < 0 || p > (if bits == Bits256 then 11 else 8)
  {
    var table := PassagesTable(bits);
    if 0 <= p < |table| then table[p] else Beyond
  }

  /** The most common passage count: 5 for 256-bit, 3 for 160-bit hashes. */
  function PassagesMode(bits: HashBits): nat
  {
    if bits == Bits256 then 5 else 3
  }

  /** The rating is 0 stars exactly at the mode, and moving further from it
      on either side never gives fewer stars. */
  lemma PassagesUnimodal(p1: int, p2: int, bits: HashBits)
    ensures Rank(StarsPassages(p1, bits)) == 0 <==> p1 == PassagesMode(bits)
    ensures 0 <= p1 <= p2 <= PassagesMode(bits) ==> Rank(StarsPassages(p2, bits)) <= Rank(StarsPassages(p1, bits))
    ensures PassagesMode(bits) <= p1 <= p2 ==> Rank(StarsPassages(p1, bits)) <= Rank(StarsPassages(p2, bits))
  {
  }

  // ---------------------------------------------------------------------
  // Crown

  /** Observed frequency of each crown key at 256 bits, by crown rank. */
  const Crown256Rank2: seq<(string, real)> :=
    [("2:1", 0.00084), ("2:2", 0.00184), ("2:3", 0.00320), ("2:4", 0.00258),
     ("2:5", 0.00214), ("2:6", 0.00140), ("2:7", 0.00060), ("2:8", 0.00014),
     ("2:9", 0.00014), ("2:10", 0.00004)]
  const Crown256Rank3: seq<(string, real)> :=
    [("3:1", 0.04944), ("3:2", 0.09764), ("3:3", 0.12696), ("3:4", 0.12238),
     ("3:5", 0.09138), ("3:6", 0.05516), ("3:7", 0.02806), ("3:8", 0.01280),
     ("3:9", 0.00488), ("3:10", 0.00164), ("3:11", 0.00052), ("3:12", 0.00010),
     ("3:13", 0.00004)]
  const Crown256Rank4To5: seq<(string, real)> :=
    [("4:1", 0.14348), ("4:2", 0.01568), ("4:3", 0.00138), ("4:4", 0.00002),
     ("5:1", 0.18222), ("5:2", 0.02046), ("5:3", 0.00162), ("5:4", 0.00012)]
  const Crown256Rank6Up: seq<(string, real)> :=
    [("6:1", 0.01420), ("6:2", 0.00016),
     ("7:1", 0.01434), ("7:2", 0.00002),
     ("8:1", 0.00120), ("9:1", 0.00086),
     ("10:1", 0.00004), ("11:1", 0.00004), ("13:1", 0.00002)]

  /** Observed frequency of each crown key at 160 bits, by crown rank. */
  const Crown160Rank2: seq<(string, real)> :=
    [("2:1", 0.01356), ("2:2", 0.01820), ("2:3", 0.01564), ("2:4", 0.00808),
     ("2:5", 0.00352), ("2:6", 0.00094), ("2:7", 0.00018), ("2:8", 0.00002)]
  const Crown160Rank3: seq<(string, real)> :=
    [("3:1", 0.15942), ("3:2", 0.19666), ("3:3", 0.15892), ("3:4", 0.09080),
     ("3:5", 0.04116), ("3:6", 0.01486), ("3:7", 0.00404), ("3:8", 0.00114),
     ("3:9", 0.00020)]
  const Crown160Rank4To5: seq<(string, real)> :=
    [("4:1", 0.10628), ("4:2", 0.00770), ("4:3", 0.00028),
     ("5:1", 0.12406), ("5:2", 0.00912), ("5:3", 0.00044)]
  const Crown160Rank6Up: seq<(string, real)> :=
    [("6:1", 0.00910), ("6:2", 0.00010),
     ("7:1", 0.00992), ("7:2", 0.00014),
     ("8:1", 0.00054), ("9:1", 0.00046),
     ("10:1", 0.00002), ("11:1", 0.00002)]

  /** `crownFreq256` / `crownFreq160`, in the order `rarity.ts` lists them. */
  function CrownFreq(bits: HashBits): seq<(string, real)>
  {
    if bits == Bits256 then
      Crown256Rank2 + Crown256Rank3 + Crown256Rank4To5 + Crown256Rank6Up + [("—", 0.00022)]
    else
      Crown160Rank2 + Crown160Rank3 + Crown160Rank4To5 + Crown160Rank6Up + [("—", 0.00448)]
  }

  /** The frequency recorded for a key, if any. */
  function Lookup(table: seq<(string, real)>, key: string): (p: Option<real>)
    ensures p.None? <==> forall i :: 0 <= i < |table| ==> table[i].0 != key
    ensures p.Some? ==> exists i :: 0 <= i < |table| && table[i] == (key, p.value)
    ensures forall k :: 0 <= k < |table| && table[k].0 == key && (forall i :: 0 <= i < k ==> table[i].0 != key)
              ==> p == Some(table[k].1)
  {
    if table == [] then None
    else if table[0].0 == key then Some(table[0].1)
    else
      var p := Lookup(table[1..], key);
      assert forall i :: 1 <= i < |table| ==> table[i] == table[1..][i - 1];
      p
  }

  function SumFreq(table: seq<(string, real)>): real
  {
    if table == [] then 0.0 else table[0].1 + SumFreq(table[1..])
  }

  lemma {:induction false} SumFreqAppend(a: seq<(string, real)>, b: seq<(string, real)>)
    ensures SumFreq(a + b) == SumFreq(a) + SumFreq(b)
    decreases |a|
  {
    if a == [] {
      assert a + b == b;
    } else {
      assert (a + b)[0] == a[0];
      assert (a + b)[1..] == a[1..] + b;
      SumFreqAppend(a[1..], b);
    }
  }

  /** Lookup in a concatenation: the first part is searched first. */
  lemma {:induction false} LookupAppend(a: seq<(string, real)>, b: seq<(string, real)>, key: string)
    ensures Lookup(a + b, key) == if Lookup(a, key).Some? then Lookup(a, key) else Lookup(b, key)
    decreases |a|
  {
    if a == [] {
      assert a + b == b;
    } else {
      assert (a + b)[0] == a[0];
      assert (a + b)[1..] == a[1..] + b;
      LookupAppend(a[1..], b, key);
    }
  }

  /** Every key of the table is a numeral-led "<rank>:<count>" key. */
  predicate DigitLed(table: seq<(string, real)>)
  {
    forall i :: 0 <= i < |table| ==> |table[i].0| > 0 && '0' <= table[i].0[0] <= '9'
  }

  lemma Crown256Rank2Sum()
    ensures SumFreq(Crown256Rank2) == 0.01292
  {
    assert SumFreq(Crown256Rank2[9..]) == 0.00004;
    assert SumFreq(Crown256Rank2[8..]) == 0.00018;
    assert SumFreq(Crown256Rank2[7..]) == 0.00032;
    assert SumFreq(Crown256Rank2[6..]) == 0.00092;
    assert SumFreq(Crown256Rank2[5..]) == 0.00232;
    assert SumFreq(Crown256Rank2[4..]) == 0.00446;
    assert SumFreq(Crown256Rank2[3..]) == 0.00704;
    assert SumFreq(Crown256Rank2[2..]) == 0.01024;
    assert SumFreq(Crown256Rank2[1..]) == 0.01208;
  }

  /** The rarer half of the rank-3 group at 256 bits, "3:7" onwards. */
  lemma Crown256Rank3TailSum()
    ensures SumFreq(Crown256Rank3[6..]) == 0.04804
  {
    assert SumFreq(Crown256Rank3[12..]) == 0.00004;
    assert SumFreq(Crown256Rank3[11..]) == 0.00014;
    assert SumFreq(Crown256Rank3[10..]) == 0.00066;
    assert SumFreq(Crown256Rank3[9..]) == 0.00230;
    assert SumFreq(Crown256Rank3[8..]) == 0.00718;
    assert SumFreq(Crown256Rank3[7..]) == 0.01998;
    assert SumFreq(Crown256Rank3[6..]) == 0.04804;
  }

  lemma Crown256Rank3Sum()
    ensures SumFreq(Crown256Rank3) == 0.59100
  {
    Crown256Rank3TailSum();
    assert SumFreq(Crown256Rank3[5..]) == 0.10320;
    assert SumFreq(Crown256Rank3[4..]) == 0.19458;
    assert SumFreq(Crown256Rank3[3..]) == 0.31696;
    assert SumFreq(Crown256Rank3[2..]) == 0.44392;
    assert SumFreq(Crown256Rank3[1..]) == 0.54156;
  }

  lemma Crown256Rank4To5Sum()
    ensures SumFreq(Crown256Rank4To5) == 0.36498
  {
    assert SumFreq(Crown256Rank4To5[7..]) == 0.00012;
    assert SumFreq(Crown256Rank4To5[6..]) == 0.00174;
    assert SumFreq(Crown256Rank4To5[5..]) == 0.02220;
    assert SumFreq(Crown256Rank4To5[4..]) == 0.20442;
    assert SumFreq(Crown256Rank4To5[3..]) == 0.20444;
    assert SumFreq(Crown256Rank4To5[2..]) == 0.20582;
    assert SumFreq(Crown256Rank4To5[1..]) == 0.22150;
  }

  lemma Crown256Rank6UpSum()
    ensures SumFreq(Crown256Rank6Up) == 0.03088
  {
    assert SumFreq(Crown256Rank6Up[8..]) == 0.00002;
    assert SumFreq(Crown256Rank6Up[7..]) == 0.00006;
    assert SumFreq(Crown256Rank6Up[6..]) == 0.00010;
    assert SumFreq(Crown256Rank6Up[5..]) == 0.00096;
    assert SumFreq(Crown256Rank6Up[4..]) == 0.00216;
    assert SumFreq(Crown256Rank6Up[3..]) == 0.00218;
    assert SumFreq(Crown256Rank6Up[2..]) == 0.01652;
    assert SumFreq(Crown256Rank6Up[1..]) == 0.01668;
  }

  lemma Crown256GroupSums()
    ensures SumFreq(Crown256Rank2) == 0.01292 && SumFreq(Crown256Rank3) == 0.59100
    ensures SumFreq(Crown256Rank4To5) == 0.36498 && SumFreq(Crown256Rank6Up) == 0.03088
  {
    Crown256Rank2Sum();
    Crown256Rank3Sum();
    Crown256Rank4To5Sum();
    Crown256Rank6UpSum();
  }

  lemma Crown160Rank2Sum()
    ensures SumFreq(Crown160Rank2) == 0.06014
  {
    assert SumFreq(Crown160Rank2[7..]) == 0.00002;
    assert SumFreq(Crown160Rank2[6..]) == 0.00020;
    assert SumFreq(Crown160Rank2[5..]) == 0.00114;
    assert SumFreq(Crown160Rank2[4..]) == 0.00466;
    assert SumFreq(Crown160Rank2[3..]) == 0.01274;
    assert SumFreq(Crown160Rank2[2..]) == 0.02838;
    assert SumFreq(Crown160Rank2[1..]) == 0.04658;
  }

  lemma Crown160Rank3Sum()
    ensures SumFreq(Crown160Rank3) == 0.66720
  {
    assert SumFreq(Crown160Rank3[8..]) == 0.00020;
    assert SumFreq(Crown160Rank3[7..]) == 0.00134;
    assert SumFreq(Crown160Rank3[6..]) == 0.00538;
    assert SumFreq(Crown160Rank3[5..]) == 0.02024;
    assert SumFreq(Crown160Rank3[4..]) == 0.06140;
    assert SumFreq(Crown160Rank3[3..]) == 0.15220;
    assert SumFreq(Crown160Rank3[2..]) == 0.31112;
    assert SumFreq(Crown160Rank3[1..]) == 0.50778;
  }

  lemma Crown160Rank4To5Sum()
    ensures SumFreq(Crown160Rank4To5) == 0.24788
  {
    assert SumFreq(Crown160Rank4To5[5..]) == 0.00044;
    assert SumFreq(Crown160Rank4To5[4..]) == 0.00956;
    assert SumFreq(Crown160Rank4To5[3..]) == 0.13362;
    assert SumFreq(Crown160Rank4To5[2..]) == 0.13390;
    assert SumFreq(Crown160Rank4To5[1..]) == 0.14160;
  }

  lemma Crown160Rank6UpSum()
    ensures SumFreq(Crown160Rank6Up) == 0.02030
  {
    assert SumFreq(Crown160Rank6Up[7..]) == 0.00002;
    assert SumFreq(Crown160Rank6Up[6..]) == 0.00004;
    assert SumFreq(Crown160Rank6Up[5..]) == 0.00050;
    assert SumFreq(Crown160Rank6Up[4..]) == 0.00104;
    assert SumFreq(Crown160Rank6Up[3..]) == 0.00118;
    assert SumFreq(Crown160Rank6Up[2..]) == 0.01110;
    assert SumFreq(Crown160Rank6Up[1..]) == 0.01120;
  }

  lemma Crown160GroupSums()
    ensures SumFreq(Crown160Rank2) == 0.06014 && SumFreq(Crown160Rank3) == 0.66720
    ensures SumFreq(Crown160Rank4To5) == 0.24788 && SumFreq(Crown160Rank6Up) == 0.02030
  {
    Crown160Rank2Sum();
    Crown160Rank3Sum();
    Crown160Rank4To5Sum();
    Crown160Rank6UpSum();
  }

  /** Sum over the four rank groups and the "—" entry. */
  lemma {:induction false} SumOfGroups(g1: seq<(string, real)>, g2: seq<(string, real)>, g3: seq<(string, real)>,
                                       g4: seq<(string, real)>, none: real)
    ensures SumFreq(g1 + g2 + g3 + g4 + [("—", none)])
         == SumFreq(g1) + SumFreq(g2) + SumFreq(g3) + SumFreq(g4) + none
  {
    SumFreqAppend(g1, g2);
    SumFreqAppend(g1 + g2, g3);
    SumFreqAppend(g1 + g2 + g3, g4);
    SumFreqAppend(g1 + g2 + g3 + g4, [("—", none)]);
    assert [("—", none)][1..] == [];
  }

  /** The recorded frequencies of each width form a distribution: they add up
      to exactly 1. */
  lemma CrownFreqSumsToOne(bits: HashBits)
    ensures SumFreq(CrownFreq(bits)) == 1.0
  {
    if bits == Bits256 {
      SumOfGroups(Crown256Rank2, Crown256Rank3, Crown256Rank4To5, Crown256Rank6Up, 0.00022);
      Crown256GroupSums();
    } else {
      SumOfGroups(Crown160Rank2, Crown160Rank3, Crown160Rank4To5, Crown160Rank6Up, 0.00448);
      Crown160GroupSums();
    }
  }

  /** Every recorded frequency is a positive fraction. */
  lemma CrownFreqPositive(bits: HashBits)
    ensures forall i :: 0 <= i < |CrownFreq(bits)| ==> 0.0 < CrownFreq(bits)[i].1 < 1.0
  {
    if bits == Bits256 {
      Crown256GroupsFractions();
      FractionsAppend(Crown256Rank2, Crown256Rank3);
      FractionsAppend(Crown256Rank2 + Crown256Rank3, Crown256Rank4To5);
      FractionsAppend(Crown256Rank2 + Crown256Rank3 + Crown256Rank4To5, Crown256Rank6Up);
      FractionsAppend(Crown256Rank2 + Crown256Rank3 + Crown256Rank4To5 + Crown256Rank6Up, [("—", 0.00022)]);
    } else {
      Crown160GroupsFractions();
      FractionsAppend(Crown160Rank2, Crown160Rank3);
      FractionsAppend(Crown160Rank2 + Crown160Rank3, Crown160Rank4To5);
      FractionsAppend(Crown160Rank2 + Crown160Rank3 + Crown160Rank4To5, Crown160Rank6Up);
      FractionsAppend(Crown160Rank2 + Crown160Rank3 + Crown160Rank4To5 + Crown160Rank6Up, [("—", 0.00448)]);
    }
  }

  /** Every frequency of the table lies strictly between 0 and 1. */
  predicate Fractions(table: seq<(string, real)>)
  {
    forall i :: 0 <= i < |table| ==> 0.0 < table[i].1 < 1.0
  }

  lemma {:induction false} FractionsAppend(a: seq<(string, real)>, b: seq<(string, real)>)
    requires Fractions(a) && Fractions(b)
    ensures Fractions(a + b)
  {
    assert forall i :: |a| <= i < |a + b| ==> (a + b)[i] == b[i - |a|];
  }

  lemma Crown256GroupsFractions()
    ensures Fractions(Crown256Rank2) && Fractions(Crown256Rank3)
    ensures Fractions(Crown256Rank4To5) && Fractions(Crown256Rank6Up)
  {
  }

  lemma Crown160GroupsFractions()
    ensures Fractions(Crown160Rank2) && Fractions(Crown160Rank3)
    ensures Fractions(Crown160Rank4To5) && Fractions(Crown160Rank6Up)
  {
  }

  /** `starsCrownByP(p)`: frequent crowns get fewer stars; unseen crowns
      get "★★★★★+". */
  function StarsCrownByP(p: Property): (t: Stars)
    ensures ValidStars(t)
    ensures t == Beyond <==> p.Undefined?
  {
    match p
    case Undefined => Beyond
    // Every `>=` test against a function or an object is false.
    case Inherited => Filled(5)
    case Own(f) =>
      if f >= 0.12 then Filled(0)
      else if f >= 0.05 then Filled(1)
      else if f >= 0.018 then Filled(2)
      else if f >= 0.005 then Filled(3)
      else if f >= 0.0012 then Filled(4)
      else Filled(5)
  }

  /** A more frequent crown never rates rarer. */
  lemma CrownAntitone(p1: real, p2: real)
    requires p1 <= p2
    ensures Rank(StarsCrownByP(Own(p2))) <= Rank(StarsCrownByP(Own(p1)))
  {
  }

  /** The names every object literal inherits from `Object.prototype`. */
  const InheritedNames: set<string> :=
    {"constructor", "hasOwnProperty", "isPrototypeOf", "propertyIsEnumerable",
     "toLocaleString", "toString", "valueOf", "__proto__",
     "__defineGetter__", "__defineSetter__", "__lookupGetter__", "__lookupSetter__"}

  /** What indexing a frequency object yields: a recorded frequency, an
      inherited member (a function, or the prototype object for
      "__proto__"), or `undefined`. */
  datatype Property = Own(freq: real) | Inherited | Undefined

  /** `table[key]` on an object literal: its own entries first, then the
      members it inherits. */
  function ReadProperty(table: seq<(string, real)>, key: string): (v: Property)
    ensures v.Own? ==> exists i :: 0 <= i < |table| && table[i] == (key, v.freq)
    ensures v.Inherited? <==> Absent(table, key) && key in InheritedNames
    ensures v.Undefined? <==> Absent(table, key) && key !in InheritedNames
  {
    match Lookup(table, key)
    case Some(f) => Own(f)
    case None => if key in InheritedNames then Inherited else Undefined
  }

  /** `starsCrown(bits, key)`. */
  function StarsCrown(bits: HashBits, key: string): (t: Stars)
    ensures ValidStars(t)
    ensures t == Beyond <==>
      (forall i :: 0 <= i < |CrownFreq(bits)| ==> CrownFreq(bits)[i].0 != key) && key !in InheritedNames
  {
    StarsCrownByP(ReadProperty(CrownFreq(bits), key))
  }

  /** No inherited name is a numeral-led key or "—". */
  lemma InheritedNameShape(key: string)
    requires key in InheritedNames
    ensures |key| > 0 && !('0' <= key[0] <= '9') && key != "—"
  {
  }

  /** A numeral-led table has no entry under a key that does not start with
      a digit. */
  lemma DigitLedAbsent(table: seq<(string, real)>, key: string)
    requires DigitLed(table) && |key| > 0 && !('0' <= key[0] <= '9')
    ensures Absent(table, key)
  {
    forall i | 0 <= i < |table|
      ensures table[i].0 != key
    {
      assert table[i].0[0] != key[0];
    }
  }

  /** No inherited name is a key of either crown table. */
  lemma InheritedNamesUnrecorded(bits: HashBits, key: string)
    requires key in InheritedNames
    ensures Absent(CrownFreq(bits), key)
  {
    InheritedNameShape(key);
    CrownGroupsDigitLed();
    if bits == Bits256 {
      DigitLedAppend(Crown256Rank2, Crown256Rank3);
      DigitLedAppend(Crown256Rank2 + Crown256Rank3, Crown256Rank4To5);
      DigitLedAppend(Crown256Rank2 + Crown256Rank3 + Crown256Rank4To5, Crown256Rank6Up);
      DigitLedAbsent(Crown256Rank2 + Crown256Rank3 + Crown256Rank4To5 + Crown256Rank6Up, key);
      AbsentAppend(Crown256Rank2 + Crown256Rank3 + Crown256Rank4To5 + Crown256Rank6Up, [("—", 0.00022)], key);
    } else {
      DigitLedAppend(Crown160Rank2, Crown160Rank3);
      DigitLedAppend(Crown160Rank2 + Crown160Rank3, Crown160Rank4To5);
      DigitLedAppend(Crown160Rank2 + Crown160Rank3 + Crown160Rank4To5, Crown160Rank6Up);
      DigitLedAbsent(Crown160Rank2 + Crown160Rank3 + Crown160Rank4To5 + Crown160Rank6Up, key);
      AbsentAppend(Crown160Rank2 + Crown160Rank3 + Crown160Rank4To5 + Crown160Rank6Up, [("—", 0.00448)], key);
    }
  }

  /** A crown value naming an inherited member, such as "constructor", is
      rated 5 stars at either width, not "★★★★★+". */
  lemma InheritedNameRating(bits: HashBits, key: string)
    requires key in InheritedNames
    ensures StarsCrown(bits, key) == Filled(5)
  {
    InheritedNamesUnrecorded(bits, key);
  }

  /** A numeral-led table has no entry for "—". */
  lemma NoCrownAbsent(table: seq<(string, real)>)
    requires DigitLed(table)
    ensures Lookup(table, "—") == None
  {
    assert "—"[0] == '—';
  }

  lemma {:induction false} DigitLedAppend(a: seq<(string, real)>, b: seq<(string, real)>)
    requires DigitLed(a) && DigitLed(b)
    ensures DigitLed(a + b)
  {
    assert forall i :: |a| <= i < |a + b| ==> (a + b)[i] == b[i - |a|];
  }

  lemma CrownGroupsDigitLed()
    ensures DigitLed(Crown256Rank2) && DigitLed(Crown256Rank3)
    ensures DigitLed(Crown256Rank4To5) && DigitLed(Crown256Rank6Up)
    ensures DigitLed(Crown160Rank2) && DigitLed(Crown160Rank3)
    ensures DigitLed(Crown160Rank4To5) && DigitLed(Crown160Rank6Up)
  {
    Crown256GroupsDigitLed();
    Crown160GroupsDigitLed();
  }

  lemma Crown256GroupsDigitLed()
    ensures DigitLed(Crown256Rank2) && DigitLed(Crown256Rank3)
    ensures DigitLed(Crown256Rank4To5) && DigitLed(Crown256Rank6Up)
  {
  }

  lemma Crown160GroupsDigitLed()
    ensures DigitLed(Crown160Rank2) && DigitLed(Crown160Rank3)
    ensures DigitLed(Crown160Rank4To5) && DigitLed(Crown160Rank6Up)
  {
  }

  /** The key "—" is found only at the end of a table of numeral-led keys. */
  lemma NoCrownLookup(g1: seq<(string, real)>, g2: seq<(string, real)>, g3: seq<(string, real)>,
                      g4: seq<(string, real)>, none: real)
    requires DigitLed(g1) && DigitLed(g2) && DigitLed(g3) && DigitLed(g4)
    ensures Lookup(g1 + g2 + g3 + g4 + [("—", none)], "—") == Some(none)
  {
    DigitLedAppend(g1, g2);
    DigitLedAppend(g1 + g2, g3);
    DigitLedAppend(g1 + g2 + g3, g4);
    NoCrownAbsent(g1 + g2 + g3 + g4);
    LookupAppend(g1 + g2 + g3 + g4, [("—", none)], "—");
  }

  /** A hash without symmetry ("—") is rated 5 stars at 256 bits (frequency
      0.00022) and 4 stars at 160 bits (frequency 0.00448). */
  lemma NoCrownStars()
    ensures StarsCrown(Bits256, "—") == Filled(5)
    ensures StarsCrown(Bits160, "—") == Filled(4)
  {
    CrownGroupsDigitLed();
    NoCrownLookup(Crown256Rank2, Crown256Rank3, Crown256Rank4To5, Crown256Rank6Up, 0.00022);
    NoCrownLookup(Crown160Rank2, Crown160Rank3, Crown160Rank4To5, Crown160Rank6Up, 0.00448);
  }

  /** The rating of "—" at either width. */
  lemma NoCrownRating(bits: HashBits)
    ensures StarsCrown(bits, "—") == Filled(if bits == Bits256 then 5 else 4)
  {
    NoCrownStars();
  }

  /** No entry of the table has this key. */
  predicate Absent(table: seq<(string, real)>, key: string)
  {
    forall i :: 0 <= i < |table| ==> table[i].0 != key
  }

  lemma {:induction false} AbsentAppend(a: seq<(string, real)>, b: seq<(string, real)>, key: string)
    requires Absent(a, key) && Absent(b, key)
    ensures Absent(a + b, key)
  {
    assert forall i :: |a| <= i < |a + b| ==> (a + b)[i] == b[i - |a|];
  }

  /** The crown key of one full-circle symmetry. */
  function FullCircleKey(bits: HashBits): string
  {
    if bits == Bits256 then "64:1" else "40:1"
  }

  /** A crown of one full-circle symmetry ("64:1" at 256 bits, "40:1" at 160
      bits) was never observed: it rates "★★★★★+". */
  lemma FullCircleCrownUnrated(bits: HashBits)
    ensures StarsCrown(bits, FullCircleKey(bits)) == Beyond
  {
    var k := "64:1";
    assert Absent(Crown256Rank2, k) && Absent(Crown256Rank3, k);
    assert Absent(Crown256Rank4To5, k) && Absent(Crown256Rank6Up, k);
    assert Absent([("—", 0.00022)], k);
    AbsentAppend(Crown256Rank2, Crown256Rank3, k);
    AbsentAppend(Crown256Rank2 + Crown256Rank3, Crown256Rank4To5, k);
    AbsentAppend(Crown256Rank2 + Crown256Rank3 + Crown256Rank4To5, Crown256Rank6Up, k);
    AbsentAppend(Crown256Rank2 + Crown256Rank3 + Crown256Rank4To5 + Crown256Rank6Up, [("—", 0.00022)], k);
    var m := "40:1";
    assert Absent(Crown160Rank2, m) && Absent(Crown160Rank3, m);
    assert Absent(Crown160Rank4To5, m) && Absent(Crown160Rank6Up, m);
    assert Absent([("—", 0.00448)], m);
    AbsentAppend(Crown160Rank2, Crown160Rank3, m);
    AbsentAppend(Crown160Rank2 + Crown160Rank3, Crown160Rank4To5, m);
    AbsentAppend(Crown160Rank2 + Crown160Rank3 + Crown160Rank4To5, Crown160Rank6Up, m);
    AbsentAppend(Crown160Rank2 + Crown160Rank3 + Crown160Rank4To5 + Crown160Rank6Up, [("—", 0.00448)], m);
    NumeralNotInherited(k);
    NumeralNotInherited(m);
  }

  /** A key starting with a digit names no inherited member. */
  lemma NumeralNotInherited(key: string)
    requires |key| > 0 && '0' <= key[0] <= '9'
    ensures key !in InheritedNames
  {
    if key in InheritedNames {
      InheritedNameShape(key);
    }
  }

  // ---------------------------------------------------------------------
  // getRarityStars

  /** A trait and its value. A ratio that does not parse as a number (NaN)
      is `Evenness(None)`. */
  datatype TraitValue =
    | Evenness(ratio: Option<real>)
    | Passages(count: int)
    | Crown(key: string)
    | Unknown(name: string)

  /** `getRarityStars(trait, value, bits)`: None for an unknown trait. */
  /** A crown is rated by its frequency-table entry. */
  lemma CrownRating(key: string, bits: HashBits)
    ensures GetRarityStars(Crown(key), bits) == Some(StarsCrown(bits, key))
  {
  }

  function GetRarityStars(q: TraitValue, bits: HashBits): (t: Option<Stars>)
    ensures t.None? <==> q.Unknown?
    ensures t.Some? ==> ValidStars(t.value)
    ensures q == Evenness(None) ==> t == Some(Beyond)
  {
    match q
    case Evenness(None) => Some(Beyond)
    case Evenness(Some(r)) => Some(StarsEvenness(r, bits))
    case Passages(p) => Some(StarsPassages(p, bits))
    case Crown(key) => Some(StarsCrown(bits, key))
    case Unknown(_) => None
  }
}
