/** Open-cell connectivity on the grid, as the passage analysis sees it:
    a cell is open iff its bit is 0; rings are adjacent linearly (0-1-2-3,
    no wrap) and sectors circularly (N-1 next to 0). This module holds the
    reference definitions the flood fill is proved against. */
module Connectivity {
  import opened BitGrid

  datatype Cell = Cell(ring: int, sector: int)

  /** A grid the analyses can run on: 4 rings of n > 0 sectors. */
  predicate ValidGrid(g: Grid, n: nat)
  {
    n > 0 && GridShape(g, n)
  }

  predicate InBounds(n: nat, c: Cell)
  {
    0 <= c.ring < 4 && 0 <= c.sector < n
  }

  /** An in-bounds zero cell. */
  predicate Open(g: Grid, n: nat, c: Cell)
    requires GridShape(g, n)
  {
    InBounds(n, c) && !g[c.ring][c.sector]
  }

  function NextSector(n: nat, s: int): int
    requires n > 0
  {
    (s + 1) % n
  }

  function PrevSector(n: nat, s: int): int
    requires n > 0
  {
    (s - 1 + n) % n
  }

  /** The four neighbour candidates of a cell, in the order `countPassages`
      generates them: outward, inward, next sector, previous sector. The
      ring may leave 0..3; the sector always stays in 0..n-1. */
  function Candidates(n: nat, c: Cell): (cs: seq<Cell>)
    requires n > 0
    ensures |cs| == 4
    ensures 0 <= c.sector < n ==> forall i :: 0 <= i < 4 ==> 0 <= cs[i].sector < n
    ensures forall i :: 0 <= i < 4 ==> c.ring - 1 <= cs[i].ring <= c.ring + 1
  {
    [Cell(c.ring + 1, c.sector), Cell(c.ring - 1, c.sector),
     Cell(c.ring, NextSector(n, c.sector)), Cell(c.ring, PrevSector(n, c.sector))]
  }

  predicate Adjacent(n: nat, a: Cell, b: Cell)
    requires n > 0
  {
    InBounds(n, a) && InBounds(n, b) && b in Candidates(n, a)
  }

  /** Sector wrap: the next sector of the last one is 0. */
  lemma NextSectorValue(n: nat, s: int)
    requires 0 <= s < n
    ensures NextSector(n, s) == if s == n - 1 then 0 else s + 1
  {
    if s == n - 1 {
      assert s + 1 == n;
    }
  }

  /** Sector wrap: the previous sector of 0 is the last one. */
  lemma PrevSectorValue(n: nat, s: int)
    requires 0 <= s < n
    ensures PrevSector(n, s) == if s == 0 then n - 1 else s - 1
  {
    if s > 0 {
      assert n <= s - 1 + n < 2 * n;
    }
  }

  /** The two sector steps undo each other. */
  lemma SectorStepsInverse(n: nat, s: int)
    requires 0 <= s < n
    ensures PrevSector(n, NextSector(n, s)) == s
    ensures NextSector(n, PrevSector(n, s)) == s
  {
    NextSectorValue(n, s);
    PrevSectorValue(n, s);
    NextSectorValue(n, PrevSector(n, s));
    PrevSectorValue(n, NextSector(n, s));
  }

  /** Adjacency is symmetric. */
  lemma AdjacentSymmetric(n: nat, a: Cell, b: Cell)
    requires n > 0 && Adjacent(n, a, b)
    ensures Adjacent(n, b, a)
  {
    var cs := Candidates(n, a);
    var bs := Candidates(n, b);
    SectorStepsInverse(n, a.sector);
    if b == cs[2] {
      assert a == bs[3];
    } else if b == cs[3] {
      assert a == bs[2];
    } else if b == cs[0] {
      assert a == bs[1];
    } else {
      assert a == bs[0];
    }
  }

  /** A walk through open cells, each step to an adjacent cell. */
  ghost predicate IsPath(g: Grid, n: nat, p: seq<Cell>)
    requires ValidGrid(g, n)
  {
    && |p| > 0
    && (forall i :: 0 <= i < |p| ==> Open(g, n, p[i]))
    && (forall i :: 0 <= i < |p| - 1 ==> Adjacent(n, p[i], p[i + 1]))
  }

  /** `b` can be reached from `a` through open cells. */
  ghost predicate Connected(g: Grid, n: nat, a: Cell, b: Cell)
    requires ValidGrid(g, n)
  {
    exists p :: IsPath(g, n, p) && p[0] == a && p[|p| - 1] == b
  }

  lemma ConnectedEndsOpen(g: Grid, n: nat, a: Cell, b: Cell)
    requires ValidGrid(g, n) && Connected(g, n, a, b)
    ensures Open(g, n, a) && Open(g, n, b)
  {
  }

  lemma ConnectedRefl(g: Grid, n: nat, a: Cell)
    requires ValidGrid(g, n) && Open(g, n, a)
    ensures Connected(g, n, a, a)
  {
    assert IsPath(g, n, [a]);
  }

  /** Extending a walk by one open neighbour. */
  lemma ConnectedStep(g: Grid, n: nat, a: Cell, b: Cell, c: Cell)
    requires ValidGrid(g, n) && Connected(g, n, a, b)
    requires Adjacent(n, b, c) && Open(g, n, c)
    ensures Connected(g, n, a, c)
  {
    var p :| IsPath(g, n, p) && p[0] == a && p[|p| - 1] == b;
    var p' := p + [c];
    assert IsPath(g, n, p');
  }

  lemma ConnectedTrans(g: Grid, n: nat, a: Cell, b: Cell, c: Cell)
    requires ValidGrid(g, n) && Connected(g, n, a, b) && Connected(g, n, b, c)
    ensures Connected(g, n, a, c)
  {
    var p :| IsPath(g, n, p) && p[0] == a && p[|p| - 1] == b;
    var q :| IsPath(g, n, q) && q[0] == b && q[|q| - 1] == c;
    var pq := p + q[1..];
    assert forall i :: |p| <= i < |pq| ==> pq[i] == q[i - |p| + 1];
    assert IsPath(g, n, pq);
  }

  lemma ConnectedSymmetric(g: Grid, n: nat, a: Cell, b: Cell)
    requires ValidGrid(g, n) && Connected(g, n, a, b)
    ensures Connected(g, n, b, a)
  {
    var p :| IsPath(g, n, p) && p[0] == a && p[|p| - 1] == b;
    var r := seq(|p|, i requires 0 <= i < |p| => p[|p| - 1 - i]);
    assert forall i :: 0 <= i < |r| ==> r[i] == p[|p| - 1 - i];
    assert forall i :: 0 <= i < |r| ==> Open(g, n, r[i]);
    forall i | 0 <= i < |r| - 1
      ensures Adjacent(n, r[i], r[i + 1])
    {
      var j := |p| - 2 - i;
      assert Adjacent(n, p[j], p[j + 1]);
      AdjacentSymmetric(n, p[j], p[j + 1]);
    }
    assert r[0] == b && r[|r| - 1] == a;
    assert IsPath(g, n, r);
  }

  /** Cell `c` is reachable from the open ring-0 cell of some sector below `s`. */
  ghost predicate ReachedBefore(g: Grid, n: nat, s: int, c: Cell)
    requires ValidGrid(g, n)
  {
    exists u :: 0 <= u < s && Open(g, n, Cell(0, u)) && Connected(g, n, Cell(0, u), c)
  }

  /** The open cells reachable from `c` include a cell of the outer ring. */
  ghost predicate ReachesOuter(g: Grid, n: nat, c: Cell)
    requires ValidGrid(g, n)
  {
    exists x :: 0 <= x < n && Connected(g, n, c, Cell(3, x))
  }

  /** Ring-0 sector t starts a passage: its cell is open, no open ring-0 cell
      of a lower sector lies in its component (t is the component's first
      ring-0 sector), and the component reaches ring 3. */
  ghost predicate IsPassageStart(g: Grid, n: nat, t: int)
    requires ValidGrid(g, n)
  {
    && 0 <= t < n
    && Open(g, n, Cell(0, t))
    && !ReachedBefore(g, n, t, Cell(0, t))
    && ReachesOuter(g, n, Cell(0, t))
  }

  /** Number of passage starts among sectors 0 .. k-1. */
  ghost function CountStarts(g: Grid, n: nat, k: nat): (c: nat)
    requires ValidGrid(g, n)
    ensures c <= k
  {
    if k == 0 then 0 else CountStarts(g, n, k - 1) + (if IsPassageStart(g, n, k - 1) then 1 else 0)
  }

  /** The reference passage count: one per component that holds an open
      ring-0 cell and a ring-3 cell. */
  ghost function PassageCount(g: Grid, n: nat): nat
    requires ValidGrid(g, n)
  {
    CountStarts(g, n, n)
  }

  /** Two passage starts never lie in the same component. */
  lemma StartsInDistinctComponents(g: Grid, n: nat, t1: int, t2: int)
    requires ValidGrid(g, n) && IsPassageStart(g, n, t1) && IsPassageStart(g, n, t2) && t1 != t2
    ensures !Connected(g, n, Cell(0, t1), Cell(0, t2))
  {
    var c1, c2 := Cell(0, t1), Cell(0, t2);
    var before2, before1 := ReachedBefore(g, n, t2, c2), ReachedBefore(g, n, t1, c1);
    var back := Connected(g, n, c2, c1);
    if t1 < t2 {
      assert Connected(g, n, c1, c2) ==> before2;
    } else {
      assert Connected(g, n, c1, c2) ==> back by {
        if Connected(g, n, c1, c2) {
          ConnectedSymmetric(g, n, c1, c2);
        }
      }
      assert back ==> before1;
    }
  }

  /** Every component holding an open ring-0 cell and a ring-3 cell has a
      passage start, at or below its ring-0 sectors. */
  lemma {:induction false} ComponentHasStart(g: Grid, n: nat, t: int)
    requires ValidGrid(g, n) && 0 <= t < n && Open(g, n, Cell(0, t))
    requires ReachesOuter(g, n, Cell(0, t))
    ensures exists t0 :: 0 <= t0 <= t && IsPassageStart(g, n, t0) && Connected(g, n, Cell(0, t0), Cell(0, t))
    decreases t
  {
    if ReachedBefore(g, n, t, Cell(0, t)) {
      var u :| 0 <= u < t && Open(g, n, Cell(0, u)) && Connected(g, n, Cell(0, u), Cell(0, t));
      var x :| 0 <= x < n && Connected(g, n, Cell(0, t), Cell(3, x));
      ConnectedTrans(g, n, Cell(0, u), Cell(0, t), Cell(3, x));
      ComponentHasStart(g, n, u);
      var t0 :| 0 <= t0 <= u && IsPassageStart(g, n, t0) && Connected(g, n, Cell(0, t0), Cell(0, u));
      ConnectedTrans(g, n, Cell(0, t0), Cell(0, u), Cell(0, t));
    } else {
      ConnectedRefl(g, n, Cell(0, t));
      assert IsPassageStart(g, n, t);
    }
  }
}
