/** `findSymmetries` and `symmetryRanks`: every (start, length) pair with
    length >= 2 is checked for an all-ring circular palindrome, the maximal
    hits are kept, and the lengths of the kept hits are tallied. */
module Symmetries {
  import opened Hex
  import opened BitMath
  import opened BitGrid
  import opened Connectivity
  import opened CircularSpans
  import opened MaximalSymmetries

  /** The order in which candidates are tried: by start, then by length. */
  predicate LexBefore(s1: nat, l1: nat, s2: nat, l2: nat)
  {
    s1 < s2 || (s1 == s2 && l1 < l2)
  }

  /** A span the search may report: on the circle, at least two sectors,
      a palindrome in every ring, carrying the hex digits it covers. */
  predicate Reported(clean: string, g: Grid, n: nat, x: Symmetry)
    requires ValidGrid(g, n) && |clean| == n
  {
    && x.start < n
    && 2 <= x.length <= n
    && SymmetricSpan(g, n, x.start, x.length)
    && x.slice == CircularSlice(clean, x.start, x.length)
  }

  /** Every span of `r` is one the search may report, tried no earlier than
      candidate (start, len). */
  ghost predicate SoundFrom(clean: string, g: Grid, n: nat, start: nat, len: nat, r: seq<Symmetry>)
    requires ValidGrid(g, n) && |clean| == n
  {
    forall x :: x in r ==> Reported(clean, g, n, x) && !LexBefore(x.start, x.length, start, len)
  }

  /** The spans of `r` come in the order the candidates are tried. */
  predicate InTryOrder(r: seq<Symmetry>)
  {
    forall i, j :: 0 <= i < j < |r| ==> LexBefore(r[i].start, r[i].length, r[j].start, r[j].length)
  }

  /** Every symmetric span tried at or after candidate (start, len) is in `r`. */
  ghost predicate CompleteFrom(g: Grid, n: nat, start: nat, len: nat, r: seq<Symmetry>)
    requires ValidGrid(g, n)
  {
    forall s: nat, l: nat :: s < n && 2 <= l <= n && !LexBefore(s, l, start, len) && SymmetricSpan(g, n, s, l)
      ==> exists x :: x in r && x.start == s && x.length == l
  }

  /** The nested loops of `findSymmetries` from candidate (start, len) on:
      exactly the symmetric spans from there, in the order they are tried. */
  function Scan(clean: string, g: Grid, n: nat, start: nat, len: nat): (r: seq<Symmetry>)
    requires ValidGrid(g, n) && |clean| == n && 2 <= len <= n + 1
    ensures SoundFrom(clean, g, n, start, len, r)
    ensures InTryOrder(r)
    ensures CompleteFrom(g, n, start, len, r)
    decreases n - start, n + 1 - len
  {
    if start >= n then []
    else if len > n then
      var rest := Scan(clean, g, n, start + 1, 2);
      ScanNextStart(clean, g, n, start, len, rest);
      rest
    else
      var rest := Scan(clean, g, n, start, len + 1);
      if IsCircularPalindrome(g, n, start, len) then
        var hit := Symmetry(start, len, CircularSlice(clean, start, len));
        ScanHit(clean, g, n, start, len, rest, hit);
        [hit] + rest
      else
        ScanMiss(clean, g, n, start, len, rest);
        rest
  }

  /** After the last length of a start the search moves to the next start. */
  lemma ScanNextStart(clean: string, g: Grid, n: nat, start: nat, len: nat, rest: seq<Symmetry>)
    requires ValidGrid(g, n) && |clean| == n && start < n && len > n
    requires SoundFrom(clean, g, n, start + 1, 2, rest)
    requires CompleteFrom(g, n, start + 1, 2, rest)
    ensures SoundFrom(clean, g, n, start, len, rest)
    ensures CompleteFrom(g, n, start, len, rest)
  {
    forall s: nat, l: nat | s < n && 2 <= l <= n && !LexBefore(s, l, start, len) && SymmetricSpan(g, n, s, l)
      ensures exists x :: x in rest && x.start == s && x.length == l
    {
      assert !LexBefore(s, l, start + 1, 2);
    }
  }

  /** A symmetric candidate is reported ahead of everything found later. */
  lemma ScanHit(clean: string, g: Grid, n: nat, start: nat, len: nat, rest: seq<Symmetry>, hit: Symmetry)
    requires ValidGrid(g, n) && |clean| == n && start < n && 2 <= len <= n
    requires SymmetricSpan(g, n, start, len)
    requires hit == Symmetry(start, len, CircularSlice(clean, start, len))
    requires SoundFrom(clean, g, n, start, len + 1, rest)
    requires InTryOrder(rest)
    requires CompleteFrom(g, n, start, len + 1, rest)
    ensures SoundFrom(clean, g, n, start, len, [hit] + rest)
    ensures InTryOrder([hit] + rest)
    ensures CompleteFrom(g, n, start, len, [hit] + rest)
  {
    var r := [hit] + rest;
    assert forall x :: x in r <==> x == hit || x in rest;
    forall i, j | 0 <= i < j < |r|
      ensures LexBefore(r[i].start, r[i].length, r[j].start, r[j].length)
    {
      assert r[j] == rest[j - 1];
      if i > 0 {
        assert r[i] == rest[i - 1];
      } else {
        assert rest[j - 1] in rest;
      }
    }
    forall s: nat, l: nat | s < n && 2 <= l <= n && !LexBefore(s, l, start, len) && SymmetricSpan(g, n, s, l)
      ensures exists x :: x in r && x.start == s && x.length == l
    {
      if s == start && l == len {
        assert hit in r;
      } else {
        assert !LexBefore(s, l, start, len + 1);
        var x :| x in rest && x.start == s && x.length == l;
        assert x in r;
      }
    }
  }

  /** A candidate that is not symmetric is skipped. */
  lemma ScanMiss(clean: string, g: Grid, n: nat, start: nat, len: nat, rest: seq<Symmetry>)
    requires ValidGrid(g, n) && |clean| == n && start < n && 2 <= len <= n
    requires !SymmetricSpan(g, n, start, len)
    requires SoundFrom(clean, g, n, start, len + 1, rest)
    requires CompleteFrom(g, n, start, len + 1, rest)
    ensures SoundFrom(clean, g, n, start, len, rest)
    ensures CompleteFrom(g, n, start, len, rest)
  {
    forall s: nat, l: nat | s < n && 2 <= l <= n && !LexBefore(s, l, start, len) && SymmetricSpan(g, n, s, l)
      ensures exists x :: x in rest && x.start == s && x.length == l
    {
      assert !LexBefore(s, l, start, len + 1);
    }
  }

  /** `findSymmetries(hex, bits)`: the maximal circular palindromes of the
      hash's grid, ordered by start sector. */
  function FindSymmetries(hex: string, bits: HashBits): (r: seq<Symmetry>)
    requires WellFormedHex(hex, bits)
    ensures forall x :: x in r ==> Reported(StripPrefix(hex), GridOfHex(hex, bits), Sectors(bits), x)
    ensures forall s: nat, l: nat :: s < Sectors(bits) && 2 <= l <= Sectors(bits)
              && SymmetricSpan(GridOfHex(hex, bits), Sectors(bits), s, l)
              ==> exists x :: x in r && Covers(x.start, x.length, s, l, Sectors(bits))
    ensures MutuallyUncoveredSpans(r, Sectors(bits))
    ensures StartsStrict(r)
  {
    var n := Sectors(bits);
    var clean := StripPrefix(hex);
    var g := GridOfHex(hex, bits);
    var found := Scan(clean, g, n, 0, 2);
    assert AllWithin(found, n);
    UniqMaxCorrect(found, n);
    UniqMaxSymmetries(found, n)
  }

  // ---------------------------------------------------------------------
  // A palindrome around the whole circle

  /** Once a full-circle span is kept, every later candidate on the circle is
      covered by it and dropped. */
  lemma {:induction false} KeepAfterFullSpan(rest: seq<Symmetry>, x0: Symmetry, n: nat)
    requires n > 0 && AllWithin(rest, n) && x0.start < n && x0.length == n
    ensures KeepMaximal(rest, [x0], n) == [x0]
    decreases |rest|
  {
    if rest != [] {
      assert rest[0] in rest;
      FullSpanCoversAll(x0.start, rest[0].start, rest[0].length, n);
      assert AnyCovers([x0], rest[0], n) by {
        assert CoversSym([x0][0], rest[0], n);
      }
      assert forall y :: y in rest[1..] ==> y in rest;
      KeepAfterFullSpan(rest[1..], x0, n);
    }
  }

  /** The first candidate is always kept. */
  lemma KeepFirst(s: seq<Symmetry>, n: nat)
    requires n > 0 && s != []
    ensures KeepMaximal(s, [], n) == KeepMaximal(s[1..], [s[0]], n)
  {
    assert !AnyCovers([], s[0], n);
    assert [] + [s[0]] == [s[0]];
  }

  /** The filter on a list whose first full-length span sits at position i0
      keeps exactly that span. */
  lemma UniqMaxWithFullSpan(found: seq<Symmetry>, n: nat, i0: nat)
    requires n > 0 && AllWithin(found, n)
    requires i0 < |found| && found[i0].length == n
    requires forall i :: 0 <= i < i0 ==> found[i].length < n
    ensures UniqMaxSymmetries(found, n) == [found[i0]]
  {
    var sorted := SortByLengthDesc(found);
    assert forall x :: x in found ==> x.length <= n;
    SortByLengthHead(found, n, i0);
    SortByLengthSorted(found);
    SameMembers(sorted, found);
    var x0 := sorted[0];
    assert x0 == found[i0];
    assert found[i0] in found;
    assert AllWithin(sorted[1..], n) by {
      assert forall y :: y in sorted[1..] ==> y in sorted;
    }
    KeepFirst(sorted, n);
    KeepAfterFullSpan(sorted[1..], x0, n);
    assert SortByStart([x0]) == [x0];
  }

  /** When the whole circle reads the same forwards and backwards from some
      start, the search reports exactly one symmetry: the full circle from the
      smallest such start. */
  lemma FullCircleSymmetry(hex: string, bits: HashBits, s0: nat)
    requires WellFormedHex(hex, bits) && s0 < Sectors(bits)
    requires SymmetricSpan(GridOfHex(hex, bits), Sectors(bits), s0, Sectors(bits))
    requires forall s: nat :: s < s0 ==> !SymmetricSpan(GridOfHex(hex, bits), Sectors(bits), s, Sectors(bits))
    ensures FindSymmetries(hex, bits)
         == [Symmetry(s0, Sectors(bits), CircularSlice(StripPrefix(hex), s0, Sectors(bits)))]
  {
    var n := Sectors(bits);
    var clean := StripPrefix(hex);
    var g := GridOfHex(hex, bits);
    var found := Scan(clean, g, n, 0, 2);
    var i0 := FullCircleFound(clean, g, n, s0);
    assert AllWithin(found, n);
    UniqMaxWithFullSpan(found, n, i0);
    assert FindSymmetries(hex, bits) == UniqMaxSymmetries(found, n);
  }

  /** The search meets the first full-circle symmetry after shorter spans only. */
  lemma FullCircleFound(clean: string, g: Grid, n: nat, s0: nat) returns (i0: nat)
    requires ValidGrid(g, n) && |clean| == n && s0 < n && 2 <= n
    requires SymmetricSpan(g, n, s0, n)
    requires forall s: nat :: s < s0 ==> !SymmetricSpan(g, n, s, n)
    ensures i0 < |Scan(clean, g, n, 0, 2)|
    ensures Scan(clean, g, n, 0, 2)[i0] == Symmetry(s0, n, CircularSlice(clean, s0, n))
    ensures forall i :: 0 <= i < i0 ==> Scan(clean, g, n, 0, 2)[i].length < n
  {
    var found := Scan(clean, g, n, 0, 2);
    assert !LexBefore(s0, n, 0, 2);
    var x :| x in found && x.start == s0 && x.length == n;
    i0 :| 0 <= i0 < |found| && found[i0] == x;
    forall i | 0 <= i < i0
      ensures found[i].length < n
    {
      assert found[i] in found;
      assert LexBefore(found[i].start, found[i].length, s0, n);
    }
  }

  /** Every ring of a one-digit-repeated hash is constant, so the whole
      circle from sector 0 is a palindrome. */
  lemma RepeatedDigitGridSymmetric(clean: string, n: nat)
    requires AllHex(clean) && |clean| == n && n > 0
    requires forall i :: 0 <= i < |clean| ==> clean[i] == clean[0]
    ensures SymmetricSpan(GridOf(clean, n), n, 0, n)
  {
    var g := GridOf(clean, n);
    forall r: nat, k: nat | r < 4 && k < n
      ensures MirrorPair(g, n, 0, n, r, k)
    {
      ModOnce(0 + k, n);
      ModOnce(0 + n - 1 - k, n);
      assert g[r][k] == NibbleBit(DigitValue(clean[k]), r);
      assert g[r][n - 1 - k] == NibbleBit(DigitValue(clean[n - 1 - k]), r);
    }
  }

  /** A hash whose digits are all the same has one symmetry: the whole circle
      from sector 0, carrying all of its digits. */
  lemma RepeatedDigitHashSymmetry(hex: string, bits: HashBits)
    requires WellFormedHex(hex, bits)
    requires forall i :: 0 <= i < |StripPrefix(hex)| ==> StripPrefix(hex)[i] == StripPrefix(hex)[0]
    ensures FindSymmetries(hex, bits) == [Symmetry(0, Sectors(bits), StripPrefix(hex))]
  {
    var n := Sectors(bits);
    var clean := StripPrefix(hex);
    RepeatedDigitGridSymmetric(clean, n);
    assert GridOfHex(hex, bits) == GridOf(clean, n);
    FullCircleSymmetry(hex, bits, 0);
    CircularSliceWhole(clean);
  }

  /** The all-zero hash: one symmetry, the whole circle. */
  lemma AllZeroHashSymmetry(hex: string, bits: HashBits)
    requires WellFormedHex(hex, bits)
    requires forall i :: 0 <= i < |StripPrefix(hex)| ==> StripPrefix(hex)[i] == '0'
    ensures FindSymmetries(hex, bits) == [Symmetry(0, Sectors(bits), StripPrefix(hex))]
  {
    RepeatedDigitHashSymmetry(hex, bits);
  }

  // ---------------------------------------------------------------------
  // symmetryRanks

  /** Reference count: how many listed symmetries have length L. */
  function CountLength(syms: seq<Symmetry>, L: nat): (c: nat)
    ensures c <= |syms|
    ensures c == 0 <==> forall x :: x in syms ==> x.length != L
  {
    if syms == [] then 0
    else CountLength(syms[..|syms| - 1], L) + (if syms[|syms| - 1].length == L then 1 else 0)
  }

  /** `ranks[len] = (ranks[len] || 0) + 1`. */
  function AddLength(m: map<nat, nat>, L: nat): map<nat, nat>
  {
    m[L := (if L in m then m[L] else 0) + 1]
  }

  /** The tally loop of `symmetryRanks`: how many symmetries there are of
      each length. */
  function TallyLengths(syms: seq<Symmetry>): (m: map<nat, nat>)
    ensures forall L :: L in m <==> exists x :: x in syms && x.length == L
    ensures forall L :: L in m ==> m[L] == CountLength(syms, L) && m[L] >= 1
  {
    if syms == [] then map[]
    else
      var init := syms[..|syms| - 1];
      var last := syms[|syms| - 1];
      var m := TallyLengths(init);
      TallyStepKeys(init, last, m);
      TallyStepCounts(init, last, m);
      assert syms == init + [last];
      AddLength(m, last.length)
  }

  /** Adding one symmetry adds its length to the tallied lengths. */
  lemma TallyStepKeys(init: seq<Symmetry>, last: Symmetry, m: map<nat, nat>)
    requires forall L :: L in m <==> exists x :: x in init && x.length == L
    ensures forall L :: L in AddLength(m, last.length) <==> exists x :: x in init + [last] && x.length == L
  {
    assert forall x :: x in init + [last] <==> x in init || x == last;
  }

  /** Adding one symmetry bumps the tally of its length by one and keeps the
      others. */
  lemma TallyStepCounts(init: seq<Symmetry>, last: Symmetry, m: map<nat, nat>)
    requires forall L :: L in m <==> exists x :: x in init && x.length == L
    requires forall L :: L in m ==> m[L] == CountLength(init, L) && m[L] >= 1
    ensures forall L :: L in AddLength(m, last.length) ==>
      AddLength(m, last.length)[L] == CountLength(init + [last], L) && AddLength(m, last.length)[L] >= 1
  {
    var syms := init + [last];
    var m' := AddLength(m, last.length);
    assert syms[..|syms| - 1] == init;
    forall L | L in m'
      ensures m'[L] == CountLength(syms, L) && m'[L] >= 1
    {
      assert CountLength(syms, L) == CountLength(init, L) + (if last.length == L then 1 else 0);
      if L != last.length {
        assert m'[L] == m[L];
      } else if L !in m {
        assert forall x :: x in init ==> x.length != L;
      }
    }
  }

  /** `symmetryRanks(hex, bits)`: the length tally of the hash's symmetries;
      every tallied length is between 2 and N. */
  function SymmetryRanks(hex: string, bits: HashBits): (m: map<nat, nat>)
    requires WellFormedHex(hex, bits)
    ensures forall L :: L in m <==> exists x :: x in FindSymmetries(hex, bits) && x.length == L
    ensures forall L :: L in m ==> 2 <= L <= Sectors(bits) && m[L] == CountLength(FindSymmetries(hex, bits), L)
  {
    TallyLengths(FindSymmetries(hex, bits))
  }

  /** Sum of the tallies over a set of lengths. */
  ghost function SumOver(m: map<nat, nat>, keys: set<nat>): nat
    requires keys <= m.Keys
    decreases keys
  {
    if keys == {} then 0
    else
      var k :| k in keys;
      m[k] + SumOver(m, keys - {k})
  }

  lemma {:induction false} SumOverRemove(m: map<nat, nat>, keys: set<nat>, k: nat)
    requires keys <= m.Keys && k in keys
    ensures SumOver(m, keys) == m[k] + SumOver(m, keys - {k})
    decreases keys
  {
    var k' :| k' in keys && SumOver(m, keys) == m[k'] + SumOver(m, keys - {k'});
    if k' != k {
      assert (keys - {k'}) - {k} == (keys - {k}) - {k'};
      SumOverRemove(m, keys - {k'}, k);
      SumOverRemove(m, keys - {k}, k');
    }
  }

  lemma {:induction false} SumOverAgree(m1: map<nat, nat>, m2: map<nat, nat>, keys: set<nat>)
    requires keys <= m1.Keys && keys <= m2.Keys
    requires forall k :: k in keys ==> m1[k] == m2[k]
    ensures SumOver(m1, keys) == SumOver(m2, keys)
    decreases keys
  {
    if keys != {} {
      var k :| k in keys;
      SumOverRemove(m1, keys, k);
      SumOverRemove(m2, keys, k);
      SumOverAgree(m1, m2, keys - {k});
    }
  }

  /** Adding one to a tally (a new length starts at 1) adds one to the sum. */
  lemma SumIncrement(m: map<nat, nat>, L: nat)
    ensures SumOver(AddLength(m, L), AddLength(m, L).Keys) == SumOver(m, m.Keys) + 1
  {
    var m' := AddLength(m, L);
    SumOverRemove(m', m'.Keys, L);
    assert m'.Keys - {L} == m.Keys - {L};
    SumOverAgree(m', m, m.Keys - {L});
    if L in m {
      SumOverRemove(m, m.Keys, L);
    } else {
      assert m.Keys - {L} == m.Keys;
    }
  }

  /** The tallies add up to the number of symmetries. */
  lemma {:induction false} RanksTotal(syms: seq<Symmetry>)
    ensures SumOver(TallyLengths(syms), TallyLengths(syms).Keys) == |syms|
    decreases |syms|
  {
    if syms != [] {
      var init := syms[..|syms| - 1];
      var L := syms[|syms| - 1].length;
      RanksTotal(init);
      SumIncrement(TallyLengths(init), L);
    }
  }

  /** The ranks of a hash add up to the number of its symmetries. */
  lemma HashRanksTotal(hex: string, bits: HashBits)
    requires WellFormedHex(hex, bits)
    ensures SumOver(SymmetryRanks(hex, bits), SymmetryRanks(hex, bits).Keys) == |FindSymmetries(hex, bits)|
  {
    RanksTotal(FindSymmetries(hex, bits));
  }
}
