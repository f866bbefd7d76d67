/** `uniqMaxSymmetries`: among the symmetric spans found, keep only those no
    other kept span covers, then order them by start sector. Both sorts are
    stable insertion sorts, as `Array.prototype.sort` is stable. */
module MaximalSymmetries {
  import opened CircularSpans

  /** One symmetric span: first sector, number of sectors, and the hex digits
      it covers. */
  datatype Symmetry = Symmetry(start: nat, length: nat, slice: string)

  /** The span lies on a circle of n sectors. */
  predicate Within(x: Symmetry, n: nat)
  {
    x.start < n && x.length <= n
  }

  predicate AllWithin(s: seq<Symmetry>, n: nat)
  {
    forall x :: x in s ==> Within(x, n)
  }

  /** `covers(a.start, a.length, b.start, b.length, sectors)`. */
  predicate CoversSym(a: Symmetry, b: Symmetry, n: nat)
    requires n > 0
  {
    Covers(a.start, a.length, b.start, b.length, n)
  }

  // ---------------------------------------------------------------------
  // Sorting by length, longest first

  predicate LengthDesc(s: seq<Symmetry>)
  {
    forall i, j :: 0 <= i < j < |s| ==> s[i].length >= s[j].length
  }

  /** Insert x before the first element that is not longer than it. */
  function InsertByLength(x: Symmetry, s: seq<Symmetry>): (r: seq<Symmetry>)
    ensures multiset(r) == multiset(s) + multiset{x}
    ensures forall y :: y in r <==> y in s || y == x
  {
    if s == [] then [x]
    else if s[0].length <= x.length then [x] + s
    else
      assert s == [s[0]] + s[1..];
      [s[0]] + InsertByLength(x, s[1..])
  }

  /** `sort((a, b) => b.length - a.length)`. */
  function SortByLengthDesc(s: seq<Symmetry>): (r: seq<Symmetry>)
    ensures multiset(r) == multiset(s)
    ensures |r| == |s| && forall y :: y in r <==> y in s
  {
    if s == [] then []
    else
      assert s == [s[0]] + s[1..];
      InsertByLength(s[0], SortByLengthDesc(s[1..]))
  }

  /** A span no shorter than every element of a length-ordered list can
      head it. */
  lemma LengthDescCons(h: Symmetry, t: seq<Symmetry>)
    requires LengthDesc(t) && forall y :: y in t ==> y.length <= h.length
    ensures LengthDesc([h] + t)
  {
    forall i, j | 0 <= i < j < |[h] + t|
      ensures ([h] + t)[i].length >= ([h] + t)[j].length
    {
      assert ([h] + t)[j] == t[j - 1];
      assert t[j - 1] in t;
      if i > 0 {
        assert ([h] + t)[i] == t[i - 1];
      }
    }
  }

  lemma {:induction false} InsertByLengthSorted(x: Symmetry, s: seq<Symmetry>)
    requires LengthDesc(s)
    ensures LengthDesc(InsertByLength(x, s))
    decreases |s|
  {
    if s == [] {
    } else if s[0].length <= x.length {
      forall y | y in s
        ensures y.length <= x.length
      {
        var k :| 0 <= k < |s| && s[k] == y;
        assert s[0].length >= s[k].length;
      }
      LengthDescCons(x, s);
    } else {
      var rest := InsertByLength(x, s[1..]);
      assert LengthDesc(s[1..]) by {
        forall i, j | 0 <= i < j < |s[1..]|
          ensures s[1..][i].length >= s[1..][j].length
        {
          assert s[1..][i] == s[i + 1] && s[1..][j] == s[j + 1];
        }
      }
      InsertByLengthSorted(x, s[1..]);
      forall y | y in rest
        ensures y.length <= s[0].length
      {
        if y != x {
          var k :| 0 <= k < |s[1..]| && s[1..][k] == y;
          assert s[0].length >= s[k + 1].length;
        }
      }
      LengthDescCons(s[0], rest);
    }
  }

  /** The length sort is a permutation ordered longest first. */
  lemma {:induction false} SortByLengthSorted(s: seq<Symmetry>)
    ensures LengthDesc(SortByLengthDesc(s))
    ensures multiset(SortByLengthDesc(s)) == multiset(s)
    decreases |s|
  {
    if s != [] {
      SortByLengthSorted(s[1..]);
      InsertByLengthSorted(s[0], SortByLengthDesc(s[1..]));
    }
  }

  /** Stability where it matters: when no span is longer than L and some span
      has length L, the sort puts first the EARLIEST span of length L. */
  lemma {:induction false} SortByLengthHead(s: seq<Symmetry>, L: nat, i0: nat)
    requires forall x :: x in s ==> x.length <= L
    requires i0 < |s| && s[i0].length == L
    requires forall i :: 0 <= i < i0 ==> s[i].length < L
    ensures |SortByLengthDesc(s)| > 0 && SortByLengthDesc(s)[0] == s[i0]
    decreases |s|
  {
    var tail := SortByLengthDesc(s[1..]);
    assert SortByLengthDesc(s) == InsertByLength(s[0], tail);
    if i0 == 0 {
      if tail != [] {
        assert tail[0] in s[1..];
        assert s[1..][0] in s;
      }
      InsertByLengthHead(s[0], tail);
    } else {
      forall x | x in s[1..]
        ensures x.length <= L
      {
        assert x in s;
      }
      forall i | 0 <= i < i0 - 1
        ensures s[1..][i].length < L
      {
        assert s[1..][i] == s[i + 1];
      }
      SortByLengthHead(s[1..], L, i0 - 1);
      InsertShorterAfterHead(s[0], tail);
    }
  }

  /** A span no shorter than the head of the list goes in front. */
  lemma InsertByLengthHead(x: Symmetry, t: seq<Symmetry>)
    requires t != [] ==> t[0].length <= x.length
    ensures InsertByLength(x, t) == [x] + t
  {
  }

  /** A span shorter than the head of the list goes after it. */
  lemma InsertShorterAfterHead(x: Symmetry, t: seq<Symmetry>)
    requires t != [] && x.length < t[0].length
    ensures InsertByLength(x, t)[0] == t[0]
  {
  }

  // ---------------------------------------------------------------------
  // Sorting by start sector

  predicate StartAsc(s: seq<Symmetry>)
  {
    forall i, j :: 0 <= i < j < |s| ==> s[i].start <= s[j].start
  }

  predicate StartsStrict(s: seq<Symmetry>)
  {
    forall i, j :: 0 <= i < j < |s| ==> s[i].start < s[j].start
  }

  /** No two positions hold spans with the same start. */
  predicate DistinctStarts(s: seq<Symmetry>)
  {
    forall i, j :: 0 <= i < j < |s| ==> s[i].start != s[j].start
  }

  /** Insert x before the first element that does not start earlier. */
  function InsertByStart(x: Symmetry, s: seq<Symmetry>): (r: seq<Symmetry>)
    ensures multiset(r) == multiset(s) + multiset{x}
    ensures forall y :: y in r <==> y in s || y == x
  {
    if s == [] then [x]
    else if x.start <= s[0].start then [x] + s
    else
      assert s == [s[0]] + s[1..];
      [s[0]] + InsertByStart(x, s[1..])
  }

  /** `sort((a, b) => a.start - b.start)`. */
  function SortByStart(s: seq<Symmetry>): (r: seq<Symmetry>)
    ensures multiset(r) == multiset(s)
  {
    if s == [] then []
    else
      assert s == [s[0]] + s[1..];
      InsertByStart(s[0], SortByStart(s[1..]))
  }

  lemma StartAscCons(h: Symmetry, t: seq<Symmetry>)
    requires StartAsc(t) && forall y :: y in t ==> h.start <= y.start
    ensures StartAsc([h] + t)
  {
    forall i, j | 0 <= i < j < |[h] + t|
      ensures ([h] + t)[i].start <= ([h] + t)[j].start
    {
      assert ([h] + t)[j] == t[j - 1];
      assert t[j - 1] in t;
      if i > 0 {
        assert ([h] + t)[i] == t[i - 1];
      }
    }
  }

  lemma StartsStrictCons(h: Symmetry, t: seq<Symmetry>)
    requires StartsStrict(t) && forall y :: y in t ==> h.start < y.start
    ensures StartsStrict([h] + t)
  {
    forall i, j | 0 <= i < j < |[h] + t|
      ensures ([h] + t)[i].start < ([h] + t)[j].start
    {
      assert ([h] + t)[j] == t[j - 1];
      assert t[j - 1] in t;
      if i > 0 {
        assert ([h] + t)[i] == t[i - 1];
      }
    }
  }

  lemma {:induction false} InsertByStartSorted(x: Symmetry, s: seq<Symmetry>)
    requires StartAsc(s)
    ensures StartAsc(InsertByStart(x, s))
    decreases |s|
  {
    if s == [] {
    } else if x.start <= s[0].start {
      forall y | y in s
        ensures x.start <= y.start
      {
        var k :| 0 <= k < |s| && s[k] == y;
        assert s[0].start <= s[k].start;
      }
      StartAscCons(x, s);
    } else {
      var rest := InsertByStart(x, s[1..]);
      assert StartAsc(s[1..]) by {
        forall i, j | 0 <= i < j < |s[1..]|
          ensures s[1..][i].start <= s[1..][j].start
        {
          assert s[1..][i] == s[i + 1] && s[1..][j] == s[j + 1];
        }
      }
      InsertByStartSorted(x, s[1..]);
      forall y | y in rest
        ensures s[0].start <= y.start
      {
        if y != x {
          var k :| 0 <= k < |s[1..]| && s[1..][k] == y;
          assert s[0].start <= s[k + 1].start;
        }
      }
      StartAscCons(s[0], rest);
    }
  }

  lemma {:induction false} InsertByStartStrict(x: Symmetry, s: seq<Symmetry>)
    requires StartsStrict(s) && forall y :: y in s ==> y.start != x.start
    ensures StartsStrict(InsertByStart(x, s))
    decreases |s|
  {
    if s == [] {
    } else if x.start <= s[0].start {
      forall y | y in s
        ensures x.start < y.start
      {
        var k :| 0 <= k < |s| && s[k] == y;
        if k > 0 {
          assert s[0].start < s[k].start;
        }
      }
      StartsStrictCons(x, s);
    } else {
      var rest := InsertByStart(x, s[1..]);
      assert StartsStrict(s[1..]) by {
        forall i, j | 0 <= i < j < |s[1..]|
          ensures s[1..][i].start < s[1..][j].start
        {
          assert s[1..][i] == s[i + 1] && s[1..][j] == s[j + 1];
        }
      }
      assert forall y :: y in s[1..] ==> y.start != x.start;
      InsertByStartStrict(x, s[1..]);
      forall y | y in rest
        ensures s[0].start < y.start
      {
        if y != x {
          var k :| 0 <= k < |s[1..]| && s[1..][k] == y;
          assert s[0].start < s[k + 1].start;
        }
      }
      StartsStrictCons(s[0], rest);
    }
  }

  /** The start sort is a permutation in ascending start order; when no two
      input positions share a start, the starts strictly increase. */
  lemma {:induction false} SortByStartSorted(s: seq<Symmetry>)
    ensures multiset(SortByStart(s)) == multiset(s)
    ensures StartAsc(SortByStart(s))
    ensures DistinctStarts(s) ==> StartsStrict(SortByStart(s))
    decreases |s|
  {
    if s != [] {
      var tail := SortByStart(s[1..]);
      SortByStartSorted(s[1..]);
      InsertByStartSorted(s[0], tail);
      if DistinctStarts(s) {
        assert DistinctStarts(s[1..]);
        forall y | y in tail
          ensures y.start != s[0].start
        {
          assert y in multiset(tail);
          assert y in s[1..];
        }
        InsertByStartStrict(s[0], tail);
      }
    }
  }

  // ---------------------------------------------------------------------
  // The greedy filter

  /** `keep.some(k => covers(k.start, k.length, cand.start, cand.length, sectors))`. */
  function AnyCovers(keep: seq<Symmetry>, cand: Symmetry, n: nat): (b: bool)
    requires n > 0
    ensures b <==> exists i :: 0 <= i < |keep| && CoversSym(keep[i], cand, n)
  {
    if keep == [] then false
    else if CoversSym(keep[0], cand, n) then true
    else
      var b := AnyCovers(keep[1..], cand, n);
      assert forall i :: 1 <= i < |keep| ==> keep[i] == keep[1..][i - 1];
      b
  }

  /** The loop over the length-sorted candidates: a candidate is kept when no
      span kept so far covers it. */
  function KeepMaximal(rest: seq<Symmetry>, keep: seq<Symmetry>, n: nat): (r: seq<Symmetry>)
    requires n > 0
    ensures keep <= r
    ensures forall y :: y in r ==> y in keep || y in rest
    decreases |rest|
  {
    if rest == [] then keep
    else
      var keep' := if AnyCovers(keep, rest[0], n) then keep else keep + [rest[0]];
      KeepMaximal(rest[1..], keep', n)
  }

  /** Every span of `sym` is covered by some span of `r`. */
  predicate CoversAll(r: seq<Symmetry>, sym: seq<Symmetry>, n: nat)
    requires n > 0
  {
    forall x :: x in sym ==> exists a :: a in r && CoversSym(a, x, n)
  }

  /** No span of the list covers a span at another position. */
  predicate MutuallyUncoveredSpans(s: seq<Symmetry>, n: nat)
    requires n > 0
  {
    forall i, j :: 0 <= i < |s| && 0 <= j < |s| && i != j ==> !CoversSym(s[i], s[j], n)
  }

  /** No kept span covers a span kept after it. */
  predicate NoneCoversLater(s: seq<Symmetry>, n: nat)
    requires n > 0
  {
    forall i, j :: 0 <= i < j < |s| ==> !CoversSym(s[i], s[j], n)
  }

  lemma {:induction false} KeepMaximalNoneCoversLater(rest: seq<Symmetry>, keep: seq<Symmetry>, n: nat)
    requires n > 0 && NoneCoversLater(keep, n)
    ensures NoneCoversLater(KeepMaximal(rest, keep, n), n)
    decreases |rest|
  {
    if rest != [] && !AnyCovers(keep, rest[0], n) {
      KeepMaximalNoneCoversLater(rest[1..], keep + [rest[0]], n);
    } else if rest != [] {
      KeepMaximalNoneCoversLater(rest[1..], keep, n);
    }
  }

  /** Every candidate is covered by some kept span. */
  lemma {:induction false} KeepMaximalComplete(rest: seq<Symmetry>, keep: seq<Symmetry>, n: nat)
    requires n > 0 && AllWithin(rest, n)
    ensures forall x :: x in rest ==> exists a :: a in KeepMaximal(rest, keep, n) && CoversSym(a, x, n)
    decreases |rest|
  {
    if rest != [] {
      var x0 := rest[0];
      var keep' := if AnyCovers(keep, x0, n) then keep else keep + [x0];
      var r := KeepMaximal(rest[1..], keep', n);
      assert r == KeepMaximal(rest, keep, n);
      KeepMaximalComplete(rest[1..], keep', n);
      forall x | x in rest
        ensures exists a :: a in r && CoversSym(a, x, n)
      {
        if x == x0 {
          if AnyCovers(keep, x0, n) {
            var i :| 0 <= i < |keep| && CoversSym(keep[i], x0, n);
            assert r[i] == keep[i];
            assert r[i] in r;
          } else {
            assert Within(x0, n);
            CoversRefl(x0.start, x0.length, n);
            assert r[|keep|] == x0;
            assert x0 in r;
          }
        } else {
          assert x in rest[1..];
        }
      }
    }
  }

  /** With candidates longest first, the kept spans stay longest first. */
  lemma {:induction false} KeepMaximalSorted(rest: seq<Symmetry>, keep: seq<Symmetry>, n: nat)
    requires n > 0 && LengthDesc(keep + rest)
    ensures LengthDesc(KeepMaximal(rest, keep, n))
    decreases |rest|
  {
    if rest == [] {
      assert keep + rest == keep;
    } else if AnyCovers(keep, rest[0], n) {
      var s := keep + rest;
      var s' := keep + rest[1..];
      forall i, j | 0 <= i < j < |s'|
        ensures s'[i].length >= s'[j].length
      {
        var i' := if i < |keep| then i else i + 1;
        var j' := if j < |keep| then j else j + 1;
        assert s'[i] == s[i'] && s'[j] == s[j'];
      }
      KeepMaximalSorted(rest[1..], keep, n);
    } else {
      assert (keep + [rest[0]]) + rest[1..] == keep + rest;
      KeepMaximalSorted(rest[1..], keep + [rest[0]], n);
    }
  }

  // ---------------------------------------------------------------------
  // Covering between spans of a length-sorted, greedy-filtered list

  /** In a longest-first list where no span covers a later one, no span covers
      an earlier one either, and no two positions share a start. */
  lemma MutuallyUncovered(s: seq<Symmetry>, n: nat)
    requires n > 0 && AllWithin(s, n) && LengthDesc(s) && NoneCoversLater(s, n)
    ensures MutuallyUncoveredSpans(s, n)
    ensures DistinctStarts(s)
  {
    forall i, j | 0 <= i < j < |s|
      ensures !CoversSym(s[j], s[i], n)
      ensures s[i].start != s[j].start
    {
      var a, b := s[i], s[j];
      assert a in s && b in s;
      if b.length < a.length {
        ShorterNeverCovers(b.start, b.length, a.start, a.length, n);
        if a.start == b.start {
          SameStartLongerCovers(a.start, a.length, b.length, n);
        }
      } else if b.length == n {
        FullSpanCoversAll(a.start, b.start, b.length, n);
      } else {
        CoversIff(b.start, b.length, a.start, a.length, n);
        CoversIff(a.start, a.length, b.start, b.length, n);
      }
    }
  }

  // ---------------------------------------------------------------------
  // uniqMaxSymmetries

  /** `uniqMaxSymmetries(sym, sectors)`. */
  function UniqMaxSymmetries(sym: seq<Symmetry>, n: nat): (r: seq<Symmetry>)
    requires n > 0
    ensures forall a :: a in r ==> a in sym
  {
    var sorted := SortByLengthDesc(sym);
    var kept := KeepMaximal(sorted, [], n);
    var r := SortByStart(kept);
    assert forall a :: a in r ==> a in sym by {
      forall a | a in r
        ensures a in sym
      {
        assert a in multiset(r);
        assert a in kept;
        assert a in multiset(sorted);
      }
    }
    r
  }

  /** The greedy pass over the length-sorted spans, before the start sort:
      it covers every input span, lists its spans longest first, and no kept
      span covers another. */
  lemma KeptCorrect(sym: seq<Symmetry>, n: nat)
    requires n > 0 && AllWithin(sym, n)
    ensures CoversAll(KeepMaximal(SortByLengthDesc(sym), [], n), sym, n)
    ensures MutuallyUncoveredSpans(KeepMaximal(SortByLengthDesc(sym), [], n), n)
    ensures DistinctStarts(KeepMaximal(SortByLengthDesc(sym), [], n))
  {
    var sorted := SortByLengthDesc(sym);
    var kept := KeepMaximal(sorted, [], n);
    SortByLengthSorted(sym);
    forall y
      ensures y in sorted <==> y in sym
    {
      assert y in sorted <==> y in multiset(sorted);
    }
    KeepMaximalComplete(sorted, [], n);
    assert [] + sorted == sorted;
    KeepMaximalSorted(sorted, [], n);
    KeepMaximalNoneCoversLater(sorted, [], n);
    MutuallyUncovered(kept, n);
    assert CoversAll(kept, sorted, n);
  }

  lemma SameMembers(a: seq<Symmetry>, b: seq<Symmetry>)
    requires multiset(a) == multiset(b)
    ensures forall y :: y in a <==> y in b
  {
    forall y
      ensures y in a <==> y in b
    {
      assert y in a <==> y in multiset(a);
      assert y in b <==> y in multiset(b);
    }
  }

  /** Rearranging mutually uncovered spans into strictly increasing start
      order keeps them mutually uncovered. */
  lemma RearrangedUncovered(kept: seq<Symmetry>, r: seq<Symmetry>, n: nat)
    requires n > 0
    requires forall y :: y in r ==> y in kept
    requires MutuallyUncoveredSpans(kept, n)
    requires StartsStrict(r)
    ensures MutuallyUncoveredSpans(r, n)
  {
    forall i, j | 0 <= i < |r| && 0 <= j < |r| && i != j
      ensures !CoversSym(r[i], r[j], n)
    {
      assert r[i] in kept && r[j] in kept;
      var i' :| 0 <= i' < |kept| && kept[i'] == r[i];
      var j' :| 0 <= j' < |kept| && kept[j'] == r[j];
      if i < j {
        assert r[i].start < r[j].start;
      } else {
        assert r[j].start < r[i].start;
      }
    }
  }

  /** What the filter promises for spans on the circle: every input span is
      covered by a kept one, no kept span covers another, and the kept spans
      are in strictly increasing start order. */
  lemma UniqMaxCorrect(sym: seq<Symmetry>, n: nat)
    requires n > 0 && AllWithin(sym, n)
    ensures CoversAll(UniqMaxSymmetries(sym, n), sym, n)
    ensures MutuallyUncoveredSpans(UniqMaxSymmetries(sym, n), n)
    ensures StartsStrict(UniqMaxSymmetries(sym, n))
  {
    var kept := KeepMaximal(SortByLengthDesc(sym), [], n);
    var r := SortByStart(kept);
    assert r == UniqMaxSymmetries(sym, n);
    KeptCorrect(sym, n);
    SortByStartSorted(kept);
    SameMembers(r, kept);
    RearrangedUncovered(kept, r, n);
    forall x | x in sym
      ensures exists a :: a in r && CoversSym(a, x, n)
    {
      var a :| a in kept && CoversSym(a, x, n);
      assert a in r;
    }
  }
}
