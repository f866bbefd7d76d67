/** The trait block of the features panel: a hash's passages, evenness ratio
    and crown, each with its rarity rating. */
module Features {
  import opened Hex
  import opened BitMath
  import opened BitGrid
  import opened Balance
  import opened Connectivity
  import opened Passages
  import opened MaximalSymmetries
  import opened Symmetries
  import opened Crown
  import Rarity

  /** The three trait values of a hash and their ratings. */
  datatype TraitReport = TraitReport(
    passages: nat,
    ratio: real,
    crown: string,
    passagesStars: Rarity.Stars,
    evenStars: Rarity.Stars,
    crownStars: Rarity.Stars)

  /** The trait block for a hash whose passage count is `passages`: the ratio
      `min/max` shown with two decimals, the crown picked from the symmetry
      ranks, and the rating of each. */
  function TraitsOf(hex: string, bits: HashBits, passages: nat): (t: TraitReport)
    requires WellFormedHex(hex, bits)
    ensures t.passages == passages
  {
    var ratio := Rarity.DisplayedEvenness(Popcount(hex), bits);
    var crown := PickCrown(SymmetryRanks(hex, bits));
    var ps := Rarity.GetRarityStars(Rarity.Passages(passages), bits);
    var es := Rarity.GetRarityStars(Rarity.Evenness(Some(ratio)), bits);
    var cs := Rarity.GetRarityStars(Rarity.Crown(crown), bits);
    TraitReport(passages, ratio, crown, ps.value, es.value, cs.value)
  }

  /** The passages entry counts the regions joining the inner ring to the
      rim, at most one per sector. */
  ghost predicate PassagesShown(hex: string, bits: HashBits, t: TraitReport)
    requires WellFormedHex(hex, bits)
  {
    t.passages == PassageCount(GridOfHex(hex, bits), Sectors(bits)) && t.passages <= Sectors(bits)
  }

  /** The evenness entry: the displayed ratio lies in [0, 1] and reaches the
      top bin exactly for half ones (for a valid hash, exactly when it is
      balanced), and the top bin rates 2 stars. */
  ghost predicate EvennessShown(hex: string, bits: HashBits, t: TraitReport)
    requires WellFormedHex(hex, bits)
  {
    && 0.0 <= t.ratio <= 1.0
    && (t.ratio >= 0.99 <==> 2 * Popcount(hex) == Bits(bits))
    && (ValidHashInput(hex, bits) ==> (t.ratio >= 0.99 <==> IsBalanced(hex)))
    && (t.ratio >= 0.99 ==> t.evenStars == Rarity.Filled(2))
  }

  /** The crown entry describes the hash's symmetries ("—" exactly when there
      are none, otherwise the longest length and its count), and "—" rates
      5 stars at 256 bits and 4 at 160 bits. */
  ghost predicate CrownShown(hex: string, bits: HashBits, t: TraitReport)
    requires WellFormedHex(hex, bits)
  {
    && CrownDescribes(t.crown, FindSymmetries(hex, bits), Sectors(bits))
    && (t.crown == NoCrown ==> t.crownStars == Rarity.Filled(if bits == Bits256 then 5 else 4))
  }

  /** Each entry shows the value the panel computes, and each rating is the
      rarity of the value shown beside it: the ratio is `min/max` of ones and
      zeros to two decimals, the crown is picked from the symmetry ranks. */
  ghost predicate RatedAsShown(hex: string, bits: HashBits, t: TraitReport)
    requires WellFormedHex(hex, bits)
  {
    && t.ratio == Rarity.DisplayedEvenness(Popcount(hex), bits)
    && t.crown == PickCrown(SymmetryRanks(hex, bits))
    && t.passagesStars == Rarity.StarsPassages(t.passages, bits)
    && t.evenStars == Rarity.StarsEvenness(t.ratio, bits)
    && t.crownStars == Rarity.StarsCrown(bits, t.crown)
  }

  /** Every rating of the block is 0..5 stars or "★★★★★+". */
  predicate RatingsValid(t: TraitReport)
  {
    Rarity.ValidStars(t.passagesStars) && Rarity.ValidStars(t.evenStars) && Rarity.ValidStars(t.crownStars)
  }

  lemma EvennessTrait(hex: string, bits: HashBits, passages: nat)
    requires WellFormedHex(hex, bits)
    ensures EvennessShown(hex, bits, TraitsOf(hex, bits, passages))
  {
    var t := TraitsOf(hex, bits, passages);
    assert t.ratio == Rarity.DisplayedEvenness(Popcount(hex), bits);
    assert t.evenStars == Rarity.StarsEvenness(t.ratio, bits);
    Rarity.TopBinIffHalfOnes(Popcount(hex), bits);
    if ValidHashInput(hex, bits) {
      Rarity.BalancedIffTopBin(hex, bits);
    }
  }

  lemma CrownTrait(hex: string, bits: HashBits, passages: nat)
    requires WellFormedHex(hex, bits)
    ensures CrownShown(hex, bits, TraitsOf(hex, bits, passages))
  {
    CrownTextTrait(hex, bits, passages);
    NoCrownRatingTrait(hex, bits, passages);
  }

  lemma CrownTextTrait(hex: string, bits: HashBits, passages: nat)
    requires WellFormedHex(hex, bits)
    ensures CrownDescribes(TraitsOf(hex, bits, passages).crown, FindSymmetries(hex, bits), Sectors(bits))
  {
    assert TraitsOf(hex, bits, passages).crown == PickCrown(SymmetryRanks(hex, bits));
    CrownOfHash(hex, bits);
  }

  lemma NoCrownRatingTrait(hex: string, bits: HashBits, passages: nat)
    requires WellFormedHex(hex, bits)
    ensures TraitsOf(hex, bits, passages).crown == NoCrown ==>
      TraitsOf(hex, bits, passages).crownStars == Rarity.Filled(if bits == Bits256 then 5 else 4)
  {
    var t := TraitsOf(hex, bits, passages);
    if t.crown == NoCrown {
      Rarity.NoCrownRating(bits);
      assert t.crownStars == Rarity.StarsCrown(bits, "—");
    }
  }

  lemma TraitRatings(hex: string, bits: HashBits, passages: nat)
    requires WellFormedHex(hex, bits)
    ensures RatedAsShown(hex, bits, TraitsOf(hex, bits, passages))
  {
    Rarity.CrownRating(PickCrown(SymmetryRanks(hex, bits)), bits);
  }

  lemma TraitRatingsValid(hex: string, bits: HashBits, passages: nat)
    requires WellFormedHex(hex, bits)
    ensures RatingsValid(TraitsOf(hex, bits, passages))
  {
  }

  /** The trait values and ratings the panel shows for a well-formed hash. */
  method ComputeTraits(hex: string, bits: HashBits) returns (t: TraitReport)
    requires WellFormedHex(hex, bits)
    ensures PassagesShown(hex, bits, t)
    ensures EvennessShown(hex, bits, t)
    ensures CrownShown(hex, bits, t)
    ensures RatedAsShown(hex, bits, t)
    ensures RatingsValid(t)
  {
    var passages := CountPassagesOfHex(hex, bits);
    TraitRatings(hex, bits, passages);
    EvennessTrait(hex, bits, passages);
    CrownTrait(hex, bits, passages);
    TraitRatingsValid(hex, bits, passages);
    t := TraitsOf(hex, bits, passages);
  }

  /** A hash of one repeated digit has a single full-circle symmetry, so its
      crown is "<N>:1". */
  lemma RepeatedDigitCrown(hex: string, bits: HashBits)
    requires WellFormedHex(hex, bits)
    requires forall i :: 0 <= i < |StripPrefix(hex)| ==> StripPrefix(hex)[i] == StripPrefix(hex)[0]
    ensures PickCrown(SymmetryRanks(hex, bits)) == CrownKey(Sectors(bits), 1)
  {
    RepeatedDigitHashSymmetry(hex, bits);
    CrownOfSingle(Symmetry(0, Sectors(bits), StripPrefix(hex)));
  }

  /** "<N>:1" spelled out for each width. */
  lemma FullCircleKeySpelled(bits: HashBits)
    ensures CrownKey(Sectors(bits), 1) == Rarity.FullCircleKey(bits)
  {
    if bits == Bits256 {
      assert CrownKey(64, 1) == "64:1";
    } else {
      assert CrownKey(40, 1) == "40:1";
    }
  }

  /** Its crown was never observed, so it rates "★★★★★+" whatever its
      other traits. */
  lemma RepeatedDigitCrownUnrated(hex: string, bits: HashBits)
    requires WellFormedHex(hex, bits)
    requires forall i :: 0 <= i < |StripPrefix(hex)| ==> StripPrefix(hex)[i] == StripPrefix(hex)[0]
    ensures Rarity.StarsCrown(bits, PickCrown(SymmetryRanks(hex, bits))) == Rarity.Beyond
  {
    var crown := PickCrown(SymmetryRanks(hex, bits));
    RepeatedDigitCrown(hex, bits);
    FullCircleKeySpelled(bits);
    assert crown == Rarity.FullCircleKey(bits);
    Rarity.FullCircleCrownUnrated(bits);
  }
}
