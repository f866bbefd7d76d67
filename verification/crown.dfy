/** The crown label of a hash: "<longest symmetry length>:<how many of that
    length>", or "—" when the hash has no symmetry. */
module Crown {
  import opened Hex
  import opened MaximalSymmetries
  import opened Symmetries

  // ---------------------------------------------------------------------
  // Decimal numerals

  predicate IsDecimalDigit(c: char)
  {
    '0' <= c <= '9'
  }

  predicate AllDecimal(s: string)
  {
    forall i :: 0 <= i < |s| ==> IsDecimalDigit(s[i])
  }

  function DigitChar(d: nat): (c: char)
    requires d < 10
    ensures IsDecimalDigit(c)
  {
    ['0', '1', '2', '3', '4', '5', '6', '7', '8', '9'][d]
  }

  /** `String(k)` for a natural number: its decimal numeral, no leading zero. */
  function DecimalDigits(k: nat): (s: string)
    ensures |s| >= 1 && AllDecimal(s)
    ensures s[0] == '0' ==> k == 0
    decreases k
  {
    if k < 10 then [DigitChar(k)] else DecimalDigits(k / 10) + [DigitChar(k % 10)]
  }

  /** Value of a decimal numeral. */
  function ParseDecimal(s: string): nat
    requires AllDecimal(s)
  {
    if s == [] then 0 else ParseDecimal(s[..|s| - 1]) * 10 + (s[|s| - 1] - '0') as nat
  }

  lemma DigitCharValue(d: nat)
    requires d < 10
    ensures (DigitChar(d) - '0') as nat == d
  {
  }

  /** Reading a numeral back gives the number. */
  lemma {:induction false} DecimalRoundTrip(k: nat)
    ensures ParseDecimal(DecimalDigits(k)) == k
    decreases k
  {
    DigitCharValue(k % 10);
    if k >= 10 {
      var s := DecimalDigits(k);
      assert s[..|s| - 1] == DecimalDigits(k / 10);
      DecimalRoundTrip(k / 10);
    } else {
      assert [DigitChar(k)][..0] == [];
    }
  }

  /** Different numbers have different numerals. */
  lemma DecimalInjective(a: nat, b: nat)
    requires DecimalDigits(a) == DecimalDigits(b)
    ensures a == b
  {
    DecimalRoundTrip(a);
    DecimalRoundTrip(b);
  }

  // ---------------------------------------------------------------------
  // Crown keys

  /** The key "<rank>:<count>" the crown tables are indexed by. */
  function CrownKey(rank: nat, count: nat): string
  {
    DecimalDigits(rank) + ":" + DecimalDigits(count)
  }

  /** The label of a hash without symmetries. */
  const NoCrown: string := "—"

  /** Position of the first `c` in `s`. */
  function IndexOf(s: string, c: char): (r: Option<nat>)
    ensures r.None? <==> c !in s
    ensures r.Some? ==> r.value < |s| && s[r.value] == c && forall j :: 0 <= j < r.value ==> s[j] != c
  {
    if s == [] then None
    else if s[0] == c then Some(0)
    else
      match IndexOf(s[1..], c)
      case None => None
      case Some(i) =>
        assert forall j :: 1 <= j <= i ==> s[j] == s[1..][j - 1];
        Some(i + 1)
  }

  /** Reads a "<rank>:<count>" key back; None for anything else. */
  function ParseCrown(s: string): Option<(nat, nat)>
  {
    match IndexOf(s, ':')
    case None => None
    case Some(i) =>
      var a, b := s[..i], s[i + 1..];
      if a != [] && b != [] && AllDecimal(a) && AllDecimal(b)
      then Some((ParseDecimal(a), ParseDecimal(b)))
      else None
  }

  /** Every crown key reads back as its rank and count. */
  lemma CrownKeyRoundTrip(rank: nat, count: nat)
    ensures ParseCrown(CrownKey(rank, count)) == Some((rank, count))
  {
    var a, b := DecimalDigits(rank), DecimalDigits(count);
    var s := CrownKey(rank, count);
    assert s[|a|] == ':';
    assert forall j :: 0 <= j < |a| ==> s[j] == a[j];
    assert IndexOf(s, ':') == Some(|a|);
    assert s[..|a|] == a;
    assert s[|a| + 1..] == b;
    DecimalRoundTrip(rank);
    DecimalRoundTrip(count);
  }

  /** The "no symmetry" label is not a key of that shape. */
  lemma NoCrownIsNotAKey()
    ensures ParseCrown(NoCrown) == None
  {
    assert ':' !in NoCrown;
  }

  // ---------------------------------------------------------------------
  // pickCrown

  lemma {:induction false} MaxExists(keys: set<nat>)
    requires keys != {}
    ensures exists k :: k in keys && forall j :: j in keys ==> j <= k
    decreases |keys|
  {
    var x :| x in keys;
    var rest := keys - {x};
    if rest == {} {
      forall j | j in keys
        ensures j <= x
      {
        assert j !in rest;
      }
      assert x in keys && forall j :: j in keys ==> j <= x;
    } else {
      MaxExists(rest);
      var k :| k in rest && forall j :: j in rest ==> j <= k;
      var m := if x > k then x else k;
      forall j | j in keys
        ensures j <= m
      {
        if j != x {
          assert j in rest;
        }
      }
      assert m in keys && forall j :: j in keys ==> j <= m;
    }
  }

  /** `Math.max` over the keys. */
  function MaxKey(ranks: map<nat, nat>): (k: nat)
    requires |ranks| > 0
    ensures k in ranks && forall j :: j in ranks ==> j <= k
  {
    assert ranks.Keys != {} by {
      var x :| x in ranks;
    }
    MaxExists(ranks.Keys);
    var k :| k in ranks && forall j :: j in ranks ==> j <= k;
    k
  }

  /** `pickCrown(ranks)`: "—" without keys, otherwise the key "<L>:<c>" of
      the largest length L and its tally c. */
  function PickCrown(ranks: map<nat, nat>): (crown: string)
    ensures |ranks| == 0 <==> crown == NoCrown
    ensures |ranks| > 0 ==> exists top :: top in ranks && (forall j :: j in ranks ==> j <= top) && crown == CrownKey(top, ranks[top])
  {
    if |ranks| == 0 then NoCrown
    else
      var top := MaxKey(ranks);
      CrownKeyRoundTrip(top, ranks[top]);
      NoCrownIsNotAKey();
      CrownKey(top, ranks[top])
  }

  /** The largest key `top` that a non-empty crown is spelled from. */
  lemma CrownTop(ranks: map<nat, nat>) returns (top: nat)
    requires |ranks| > 0
    ensures top in ranks && (forall j :: j in ranks ==> j <= top)
    ensures PickCrown(ranks) == CrownKey(top, ranks[top])
  {
    top := MaxKey(ranks);
  }

  /** A non-empty crown reads back as the greatest rank and its tally. */
  lemma PickCrownReadsBack(ranks: map<nat, nat>)
    requires |ranks| > 0
    ensures ParseCrown(PickCrown(ranks)).Some?
    ensures ParseCrown(PickCrown(ranks)).value.0 in ranks
    ensures forall j :: j in ranks ==> j <= ParseCrown(PickCrown(ranks)).value.0
    ensures ParseCrown(PickCrown(ranks)).value.1 == ranks[ParseCrown(PickCrown(ranks)).value.0]
  {
    var top := CrownTop(ranks);
    CrownKeyRoundTrip(top, ranks[top]);
  }

  /** L is the greatest length among `syms` and c the number of symmetries
      of that length. */
  predicate LongestTally(syms: seq<Symmetry>, L: nat, c: nat)
  {
    && (exists x :: x in syms && x.length == L)
    && (forall x :: x in syms ==> x.length <= L)
    && c == CountLength(syms, L)
  }

  /** The crown of a list of symmetries: "—" exactly for the empty list,
      otherwise the key "<L>:<c>" of the longest length L and its count c. */
  lemma CrownOfTally(syms: seq<Symmetry>)
    ensures syms == [] <==> PickCrown(TallyLengths(syms)) == NoCrown
    ensures syms != [] ==> exists L: nat, c: nat ::
      PickCrown(TallyLengths(syms)) == CrownKey(L, c) && LongestTally(syms, L, c) && c >= 1
  {
    var ranks := TallyLengths(syms);
    if syms != [] {
      assert syms[0] in syms;
      assert syms[0].length in ranks;
      assert |ranks| > 0 by {
        assert ranks.Keys != {};
      }
      var L := CrownTop(ranks);
      var c := ranks[L];
      forall y | y in syms
        ensures y.length <= L
      {
        assert y.length in ranks;
      }
      assert LongestTally(syms, L, c);
    } else {
      assert forall k :: k !in ranks;
      assert ranks == map[];
    }
  }

  /** A single symmetry of length L gives the crown "<L>:1". */
  lemma CrownOfSingle(x: Symmetry)
    ensures PickCrown(TallyLengths([x])) == CrownKey(x.length, 1)
  {
    var ranks := TallyLengths([x]);
    assert x in [x];
    assert x.length in ranks;
    assert ranks.Keys == {x.length} by {
      forall L | L in ranks
        ensures L == x.length
      {
        var y :| y in [x] && y.length == L;
      }
    }
    assert CountLength([x], x.length) == 1 by {
      assert [x][..0] == [];
    }
    assert MaxKey(ranks) == x.length;
  }

  /** `crown` is the crown of the symmetry list `syms` over n sectors: "—"
      exactly for no symmetry, otherwise the key "<L>:<c>" spelled from the
      longest length L (2 <= L <= n) and the number c >= 1 of symmetries of
      that length. */
  ghost predicate CrownDescribes(crown: string, syms: seq<Symmetry>, n: nat)
  {
    && (crown == NoCrown <==> syms == [])
    && (crown != NoCrown ==> exists L: nat, c: nat ::
          crown == CrownKey(L, c) && LongestTally(syms, L, c) && 2 <= L <= n && c >= 1)
  }

  /** The crown of a hash: "—" exactly when it has no symmetry; otherwise it
      is the key "<L>:<c>" of the length L of its longest symmetries
      (2 <= L <= N) and the number c of symmetries of that length. */
  lemma CrownOfHash(hex: string, bits: HashBits)
    requires WellFormedHex(hex, bits)
    ensures CrownDescribes(PickCrown(SymmetryRanks(hex, bits)), FindSymmetries(hex, bits), Sectors(bits))
  {
    var syms := FindSymmetries(hex, bits);
    assert forall x :: x in syms ==> 2 <= x.length <= Sectors(bits);
    CrownOfBoundedList(syms, Sectors(bits));
  }

  /** The crown of symmetries whose lengths lie in 2..n describes them. */
  lemma CrownOfBoundedList(syms: seq<Symmetry>, n: nat)
    requires forall x :: x in syms ==> 2 <= x.length <= n
    ensures CrownDescribes(PickCrown(TallyLengths(syms)), syms, n)
  {
    CrownOfTally(syms);
    if syms != [] {
      var L: nat, c: nat :| PickCrown(TallyLengths(syms)) == CrownKey(L, c) && LongestTally(syms, L, c) && c >= 1;
      var x :| x in syms && x.length == L;
    }
  }
}
