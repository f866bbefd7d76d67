/** The passage analysis: a breadth-first flood fill over open (zero) cells
    with a `visited` matrix, started from every open, unvisited ring-0 cell;
    a fill that touches ring 3 counts as one passage. */
module Passages {
  import opened Hex
  import opened BitMath
  import opened BitGrid
  import opened Connectivity

  /** The `visited` matrix, indexed [ring][sector]. */
  type Marks = seq<seq<bool>>

  predicate MarksShape(v: Marks, n: nat)
  {
    |v| == 4 && forall r :: 0 <= r < 4 ==> |v[r]| == n
  }

  predicate Marked(v: Marks, n: nat, c: Cell)
    requires MarksShape(v, n)
  {
    InBounds(n, c) && v[c.ring][c.sector]
  }

  /** `visited[r][c] = true`: exactly one more cell is marked. */
  function Mark(v: Marks, n: nat, c: Cell): (v': Marks)
    requires MarksShape(v, n) && InBounds(n, c)
    ensures MarksShape(v', n)
    ensures forall d :: Marked(v', n, d) <==> Marked(v, n, d) || d == c
  {
    v[c.ring := v[c.ring][c.sector := true]]
  }

  /** The cells not yet visited; the fill's termination measure. */
  function Unmarked(v: Marks, n: nat): set<Cell>
    requires MarksShape(v, n)
  {
    set r, s | 0 <= r < 4 && 0 <= s < n && !v[r][s] :: Cell(r, s)
  }

  lemma MarkShrinksUnmarked(v: Marks, n: nat, c: Cell)
    requires MarksShape(v, n) && InBounds(n, c) && !Marked(v, n, c)
    ensures |Unmarked(Mark(v, n, c), n)| < |Unmarked(v, n)|
  {
    var v' := Mark(v, n, c);
    assert Unmarked(v', n) == Unmarked(v, n) - {c};
    assert c in Unmarked(v, n);
  }

  /** Walls are never visited. */
  ghost predicate OnlyOpenMarked(g: Grid, n: nat, v: Marks)
    requires ValidGrid(g, n) && MarksShape(v, n)
  {
    forall c :: Marked(v, n, c) ==> Open(g, n, c)
  }

  /** Every open neighbour of a visited cell is visited. */
  ghost predicate ClosedMarks(g: Grid, n: nat, v: Marks)
    requires ValidGrid(g, n) && MarksShape(v, n)
  {
    forall a, b :: Marked(v, n, a) && Adjacent(n, a, b) && Open(g, n, b) ==> Marked(v, n, b)
  }

  /** A closed marking that holds one cell of a component holds all of it. */
  lemma ClosedReach(g: Grid, n: nat, v: Marks, a: Cell, b: Cell)
    requires ValidGrid(g, n) && MarksShape(v, n) && ClosedMarks(g, n, v)
    requires Connected(g, n, a, b)
    ensures Marked(v, n, a) ==> Marked(v, n, b)
  {
    var p :| IsPath(g, n, p) && p[0] == a && p[|p| - 1] == b;
    var i := 0;
    while i < |p| - 1
      invariant 0 <= i <= |p| - 1
      invariant Marked(v, n, a) ==> Marked(v, n, p[i])
    {
      assert Adjacent(n, p[i], p[i + 1]) && Open(g, n, p[i + 1]);
      i := i + 1;
    }
  }

  /** The `nei.forEach` step: enqueue each in-ring, unvisited, open neighbour. */
  method PushNeighbours(g: Grid, n: nat, vis: Marks, c: Cell, q: seq<Cell>) returns (q': seq<Cell>)
    requires ValidGrid(g, n) && MarksShape(vis, n) && InBounds(n, c)
    ensures |q| <= |q'| && q'[..|q|] == q
    ensures forall i :: |q| <= i < |q'| ==> Adjacent(n, c, q'[i]) && Open(g, n, q'[i]) && !Marked(vis, n, q'[i])
    ensures forall b :: Adjacent(n, c, b) && Open(g, n, b) && !Marked(vis, n, b) ==> b in q'
  {
    var nei := Candidates(n, c);
    q' := q;
    for i := 0 to 4
      invariant |q| <= |q'| && q'[..|q|] == q
      invariant forall j :: |q| <= j < |q'| ==> Adjacent(n, c, q'[j]) && Open(g, n, q'[j]) && !Marked(vis, n, q'[j])
      invariant forall j :: 0 <= j < i && InBounds(n, nei[j]) && Open(g, n, nei[j]) && !Marked(vis, n, nei[j]) ==> nei[j] in q'
    {
      var nb := nei[i];
      if 0 <= nb.ring < 4 && !vis[nb.ring][nb.sector] && !g[nb.ring][nb.sector] {
        q' := q' + [nb];
      }
    }
  }

  /** What a finished fill (empty queue) has established. */
  lemma FillComplete(g: Grid, n: nat, vis0: Marks, vis: Marks, st: Cell, local: seq<Cell>)
    requires ValidGrid(g, n) && MarksShape(vis0, n) && MarksShape(vis, n)
    requires ClosedMarks(g, n, vis0) && !Marked(vis0, n, st) && Marked(vis, n, st)
    requires forall a, b :: Marked(vis, n, a) && Adjacent(n, a, b) && Open(g, n, b) ==> Marked(vis, n, b)
    requires forall c :: Marked(vis0, n, c) ==> Marked(vis, n, c)
    requires forall c :: c in local <==> Marked(vis, n, c) && !Marked(vis0, n, c)
    requires forall c :: c in local ==> Connected(g, n, st, c)
    ensures ClosedMarks(g, n, vis)
    ensures forall c :: Marked(vis, n, c) <==> Marked(vis0, n, c) || Connected(g, n, st, c)
    ensures forall c :: c in local <==> Connected(g, n, st, c)
    ensures (exists i :: 0 <= i < |local| && local[i].ring == 3) <==> ReachesOuter(g, n, st)
  {
    assert ClosedMarks(g, n, vis);
    forall c | Connected(g, n, st, c)
      ensures Marked(vis, n, c) && !Marked(vis0, n, c)
    {
      ClosedReach(g, n, vis, st, c);
      ConnectedSymmetric(g, n, st, c);
      ClosedReach(g, n, vis0, c, st);
    }
    if exists i :: 0 <= i < |local| && local[i].ring == 3 {
      var i :| 0 <= i < |local| && local[i].ring == 3;
      assert local[i] in local;
      assert Connected(g, n, st, Cell(3, local[i].sector));
    }
    if ReachesOuter(g, n, st) {
      var x :| 0 <= x < n && Connected(g, n, st, Cell(3, x));
      assert Cell(3, x) in local;
    }
  }

  /** The invariant of the fill's queue loop. */
  ghost predicate FillInv(g: Grid, n: nat, vis0: Marks, st: Cell,
                          vis: Marks, q: seq<Cell>, local: seq<Cell>, reachedEdge: bool)
    requires ValidGrid(g, n) && MarksShape(vis0, n)
  {
    && MarksShape(vis, n) && OnlyOpenMarked(g, n, vis)
    && (forall i :: 0 <= i < |q| ==> Open(g, n, q[i]) && Connected(g, n, st, q[i]))
    && (forall c :: Marked(vis0, n, c) ==> Marked(vis, n, c))
    && (forall c :: c in local <==> Marked(vis, n, c) && !Marked(vis0, n, c))
    && (forall c :: c in local ==> Connected(g, n, st, c))
    && (forall i, j :: 0 <= i < j < |local| ==> local[i] != local[j])
    && (forall a, b :: Marked(vis, n, a) && Adjacent(n, a, b) && Open(g, n, b) ==> Marked(vis, n, b) || b in q)
    && (Marked(vis, n, st) || st in q)
    && (reachedEdge <==> exists i :: 0 <= i < |local| && local[i].ring == 3)
  }

  /** Dequeuing a wall or an already visited cell keeps the invariant. */
  lemma FillSkip(g: Grid, n: nat, vis0: Marks, st: Cell,
                 vis: Marks, q: seq<Cell>, local: seq<Cell>, reachedEdge: bool)
    requires ValidGrid(g, n) && MarksShape(vis0, n) && |q| > 0
    requires FillInv(g, n, vis0, st, vis, q, local, reachedEdge)
    requires Marked(vis, n, q[0]) || !Open(g, n, q[0])
    ensures FillInv(g, n, vis0, st, vis, q[1..], local, reachedEdge)
  {
    assert forall x :: x in q ==> x == q[0] || x in q[1..];
  }

  /** The cells enqueued by a visit are open and in the start's component. */
  lemma VisitQueue(g: Grid, n: nat, st: Cell, q: seq<Cell>, q': seq<Cell>)
    requires ValidGrid(g, n) && |q| > 0
    requires forall i :: 0 <= i < |q| ==> Open(g, n, q[i]) && Connected(g, n, st, q[i])
    requires |q| - 1 <= |q'| && q'[..|q| - 1] == q[1..]
    requires forall i :: |q| - 1 <= i < |q'| ==> Adjacent(n, q[0], q'[i]) && Open(g, n, q'[i])
    ensures forall i :: 0 <= i < |q'| ==> Open(g, n, q'[i]) && Connected(g, n, st, q'[i])
  {
    forall i | 0 <= i < |q'|
      ensures Open(g, n, q'[i]) && Connected(g, n, st, q'[i])
    {
      if i < |q| - 1 {
        assert q'[i] == q[i + 1];
      } else {
        ConnectedStep(g, n, st, q[0], q'[i]);
      }
    }
  }

  /** After a visit, every open neighbour of a visited cell is visited or queued. */
  lemma VisitClosure(g: Grid, n: nat, vis: Marks, q: seq<Cell>, q': seq<Cell>)
    requires ValidGrid(g, n) && MarksShape(vis, n) && |q| > 0 && InBounds(n, q[0])
    requires forall a, b :: Marked(vis, n, a) && Adjacent(n, a, b) && Open(g, n, b) ==> Marked(vis, n, b) || b in q
    requires |q| - 1 <= |q'| && q'[..|q| - 1] == q[1..]
    requires forall b :: Adjacent(n, q[0], b) && Open(g, n, b) && !Marked(Mark(vis, n, q[0]), n, b) ==> b in q'
    ensures forall a, b :: Marked(Mark(vis, n, q[0]), n, a) && Adjacent(n, a, b) && Open(g, n, b)
                       ==> Marked(Mark(vis, n, q[0]), n, b) || b in q'
  {
    var vis' := Mark(vis, n, q[0]);
    assert forall x :: x in q ==> x == q[0] || x in q' by {
      forall x | x in q
        ensures x == q[0] || x in q'
      {
        var i :| 0 <= i < |q| && q[i] == x;
        if i > 0 {
          assert q'[i - 1] == x;
        }
      }
    }
  }

  /** After a visit, `local` lists exactly the newly visited cells, once each. */
  lemma VisitLocal(g: Grid, n: nat, vis0: Marks, st: Cell,
                   vis: Marks, c: Cell, local: seq<Cell>, reachedEdge: bool)
    requires ValidGrid(g, n) && MarksShape(vis0, n) && MarksShape(vis, n)
    requires InBounds(n, c) && !Marked(vis, n, c) && Connected(g, n, st, c)
    requires forall d :: Marked(vis0, n, d) ==> Marked(vis, n, d)
    requires forall d :: d in local <==> Marked(vis, n, d) && !Marked(vis0, n, d)
    requires forall d :: d in local ==> Connected(g, n, st, d)
    requires forall i, j :: 0 <= i < j < |local| ==> local[i] != local[j]
    requires reachedEdge <==> exists i :: 0 <= i < |local| && local[i].ring == 3
    ensures forall d :: d in local + [c] <==> Marked(Mark(vis, n, c), n, d) && !Marked(vis0, n, d)
    ensures forall d :: d in local + [c] ==> Connected(g, n, st, d)
    ensures forall i, j :: 0 <= i < j < |local + [c]| ==> (local + [c])[i] != (local + [c])[j]
    ensures (reachedEdge || c.ring == 3) <==> exists i :: 0 <= i < |local + [c]| && (local + [c])[i].ring == 3
  {
    var local' := local + [c];
    assert forall x :: x in local' <==> x in local || x == c;
    assert forall i :: 0 <= i < |local| ==> local'[i] == local[i];
    assert local'[|local|] == c;
  }

  /** Visiting a dequeued open cell and enqueuing its neighbours keeps the invariant. */
  lemma FillVisit(g: Grid, n: nat, vis0: Marks, st: Cell,
                  vis: Marks, q: seq<Cell>, local: seq<Cell>, reachedEdge: bool, q': seq<Cell>)
    requires ValidGrid(g, n) && MarksShape(vis0, n) && |q| > 0
    requires FillInv(g, n, vis0, st, vis, q, local, reachedEdge)
    requires !Marked(vis, n, q[0]) && Open(g, n, q[0])
    requires |q| - 1 <= |q'| && q'[..|q| - 1] == q[1..]
    requires forall i :: |q| - 1 <= i < |q'| ==> Adjacent(n, q[0], q'[i]) && Open(g, n, q'[i])
    requires forall b :: Adjacent(n, q[0], b) && Open(g, n, b) && !Marked(Mark(vis, n, q[0]), n, b) ==> b in q'
    ensures FillInv(g, n, vis0, st, Mark(vis, n, q[0]), q', local + [q[0]], reachedEdge || q[0].ring == 3)
  {
    VisitQueue(g, n, st, q, q');
    VisitClosure(g, n, vis, q, q');
    VisitLocal(g, n, vis0, st, vis, q[0], local, reachedEdge);
  }

  /** One breadth-first fill from `st` (the body of the outer loop). Returns
      the new visited matrix, the cells of the component in visiting order
      (`local`) and whether ring 3 was reached. */
  method FloodFill(g: Grid, n: nat, vis0: Marks, st: Cell) returns (vis: Marks, local: seq<Cell>, reachedEdge: bool)
    requires ValidGrid(g, n) && MarksShape(vis0, n)
    requires OnlyOpenMarked(g, n, vis0) && ClosedMarks(g, n, vis0)
    requires Open(g, n, st) && !Marked(vis0, n, st)
    ensures MarksShape(vis, n) && OnlyOpenMarked(g, n, vis) && ClosedMarks(g, n, vis)
    ensures forall c :: Marked(vis, n, c) <==> Marked(vis0, n, c) || Connected(g, n, st, c)
    ensures forall c :: c in local <==> Connected(g, n, st, c)
    ensures forall i, j :: 0 <= i < j < |local| ==> local[i] != local[j]
    ensures reachedEdge <==> ReachesOuter(g, n, st)
  {
    vis := vis0;
    var q := [st];
    local := [];
    reachedEdge := false;
    ConnectedRefl(g, n, st);
    while |q| > 0
      invariant FillInv(g, n, vis0, st, vis, q, local, reachedEdge)
      decreases |Unmarked(vis, n)|, |q|
    {
      var c := q[0];
      if vis[c.ring][c.sector] || g[c.ring][c.sector] {
        FillSkip(g, n, vis0, st, vis, q, local, reachedEdge);
        q := q[1..];
        continue;
      }
      MarkShrinksUnmarked(vis, n, c);
      var q' := PushNeighbours(g, n, Mark(vis, n, c), c, q[1..]);
      FillVisit(g, n, vis0, st, vis, q, local, reachedEdge, q');
      vis := Mark(vis, n, c);
      local := local + [c];
      if c.ring == 3 {
        reachedEdge := true;
      }
      q := q';
    }
    FillComplete(g, n, vis0, vis, st, local);
  }

  /** How sector s of the outer loop extends the set of cells reached from ring 0. */
  lemma ReachedBeforeNext(g: Grid, n: nat, s: int, c: Cell)
    requires ValidGrid(g, n) && 0 <= s
    ensures ReachedBefore(g, n, s + 1, c)
        <==> ReachedBefore(g, n, s, c) || (Open(g, n, Cell(0, s)) && Connected(g, n, Cell(0, s), c))
  {
    if ReachedBefore(g, n, s + 1, c) && !ReachedBefore(g, n, s, c) {
      var u :| 0 <= u < s + 1 && Open(g, n, Cell(0, u)) && Connected(g, n, Cell(0, u), c);
      assert u == s;
    }
  }

  /** `countPassages` on a grid. */
  method CountPassages(g: Grid, n: nat) returns (passages: nat)
    requires ValidGrid(g, n)
    ensures passages == PassageCount(g, n)
    ensures passages <= n
  {
    var vis: Marks := seq(4, _ => seq(n, _ => false));
    passages := 0;
    for s := 0 to n
      invariant MarksShape(vis, n) && OnlyOpenMarked(g, n, vis) && ClosedMarks(g, n, vis)
      invariant forall c :: Marked(vis, n, c) <==> ReachedBefore(g, n, s, c)
      invariant passages == CountStarts(g, n, s)
    {
      var st := Cell(0, s);
      forall c {
        ReachedBeforeNext(g, n, s, c);
      }
      if g[0][s] || vis[0][s] {
        forall c | Connected(g, n, st, c)
          ensures Marked(vis, n, c)
        {
          ClosedReach(g, n, vis, st, c);
        }
        assert !IsPassageStart(g, n, s);
      } else {
        var vis', local, reachedEdge := FloodFill(g, n, vis, st);
        assert IsPassageStart(g, n, s) <==> reachedEdge;
        vis := vis';
        if reachedEdge {
          passages := passages + 1;
        }
      }
    }
  }

  /** `countPassages(hex, bits)`: build the grid, then count. */
  method CountPassagesOfHex(hex: string, bits: HashBits) returns (passages: nat)
    requires WellFormedHex(hex, bits)
    ensures passages == PassageCount(GridOfHex(hex, bits), Sectors(bits))
    ensures passages <= Sectors(bits)
  {
    passages := CountPassages(GridOfHex(hex, bits), Sectors(bits));
  }

  lemma {:induction false} NoStartsNoPassages(g: Grid, n: nat, k: nat)
    requires ValidGrid(g, n) && forall t :: 0 <= t < k ==> !IsPassageStart(g, n, t)
    ensures CountStarts(g, n, k) == 0
  {
    if k > 0 {
      NoStartsNoPassages(g, n, k - 1);
    }
  }

  /** If every ring-0 cell is a wall the mandala is sealed: no passages. */
  lemma SealedHasNoPassages(g: Grid, n: nat)
    requires ValidGrid(g, n) && forall s :: 0 <= s < n ==> g[0][s]
    ensures PassageCount(g, n) == 0
  {
    NoStartsNoPassages(g, n, n);
  }

  /** If only ring 0 has open cells, no component reaches ring 3: no passages. */
  lemma InnerRingOnlyHasNoPassages(g: Grid, n: nat)
    requires ValidGrid(g, n) && forall r, s :: 1 <= r < 4 && 0 <= s < n ==> g[r][s]
    ensures PassageCount(g, n) == 0
  {
    forall t | 0 <= t < n
      ensures !IsPassageStart(g, n, t)
    {
      forall x | 0 <= x < n
        ensures !Connected(g, n, Cell(0, t), Cell(3, x))
      {
        var c3 := Connected(g, n, Cell(0, t), Cell(3, x));
        if c3 {
          ConnectedEndsOpen(g, n, Cell(0, t), Cell(3, x));
        }
        assert !Open(g, n, Cell(3, x));
      }
    }
    NoStartsNoPassages(g, n, n);
  }

  /** On an all-open grid every ring-0 cell is reachable from sector 0 through ring 0. */
  lemma {:induction false} RingZeroConnected(g: Grid, n: nat, k: nat)
    requires ValidGrid(g, n) && k < n
    requires forall r, s :: 0 <= r < 4 && 0 <= s < n ==> !g[r][s]
    ensures Connected(g, n, Cell(0, 0), Cell(0, k))
  {
    if k == 0 {
      ConnectedRefl(g, n, Cell(0, 0));
    } else {
      RingZeroConnected(g, n, k - 1);
      NextSectorValue(n, k - 1);
      assert Cell(0, k) == Candidates(n, Cell(0, k - 1))[2];
      ConnectedStep(g, n, Cell(0, 0), Cell(0, k - 1), Cell(0, k));
    }
  }

  /** An all-open grid has exactly one passage: the sector wrap joins every
      open cell into one component, explored from sector 0. */
  lemma {:induction false} AllOpenHasOnePassage(g: Grid, n: nat)
    requires ValidGrid(g, n)
    requires forall r, s :: 0 <= r < 4 && 0 <= s < n ==> !g[r][s]
    ensures PassageCount(g, n) == 1
  {
    var path := [Cell(0, 0), Cell(1, 0), Cell(2, 0), Cell(3, 0)];
    assert Candidates(n, path[0])[0] == path[1];
    assert Candidates(n, path[1])[0] == path[2];
    assert Candidates(n, path[2])[0] == path[3];
    assert IsPath(g, n, path);
    assert Connected(g, n, Cell(0, 0), Cell(3, 0));
    assert IsPassageStart(g, n, 0);
    var k := 1;
    while k < n
      invariant 1 <= k <= n
      invariant CountStarts(g, n, k) == 1
    {
      RingZeroConnected(g, n, k);
      assert ReachedBefore(g, n, k, Cell(0, k));
      k := k + 1;
    }
  }

  /** A hash of all '0' digits has exactly one passage. */
  lemma AllZeroHashOnePassage(hex: string, bits: HashBits)
    requires WellFormedHex(hex, bits)
    requires forall i :: 0 <= i < |StripPrefix(hex)| ==> StripPrefix(hex)[i] == '0'
    ensures PassageCount(GridOfHex(hex, bits), Sectors(bits)) == 1
  {
    var g, n, clean := GridOfHex(hex, bits), Sectors(bits), StripPrefix(hex);
    forall r, s | 0 <= r < 4 && 0 <= s < n
      ensures !g[r][s]
    {
      assert g[r][s] == NibbleBit(DigitValue(clean[s]), r);
      assert DigitValue(clean[s]) == 0;
    }
    AllOpenHasOnePassage(g, n);
  }

  /** A hash of all 'f' digits has no passage. */
  lemma AllOnesHashNoPassage(hex: string, bits: HashBits)
    requires WellFormedHex(hex, bits)
    requires forall i :: 0 <= i < |StripPrefix(hex)| ==> StripPrefix(hex)[i] in "fF"
    ensures PassageCount(GridOfHex(hex, bits), Sectors(bits)) == 0
  {
    var g, n, clean := GridOfHex(hex, bits), Sectors(bits), StripPrefix(hex);
    forall s | 0 <= s < n
      ensures g[0][s]
    {
      assert g[0][s] == NibbleBit(DigitValue(clean[s]), 0);
      assert DigitValue(clean[s]) == 15;
    }
    SealedHasNoPassages(g, n);
  }

  /** A hash of all '7' digits (0111: ring 0 open, rings 1-3 walls) has no passage. */
  lemma AllSevensHashNoPassage(hex: string, bits: HashBits)
    requires WellFormedHex(hex, bits)
    requires forall i :: 0 <= i < |StripPrefix(hex)| ==> StripPrefix(hex)[i] == '7'
    ensures PassageCount(GridOfHex(hex, bits), Sectors(bits)) == 0
  {
    var g, n, clean := GridOfHex(hex, bits), Sectors(bits), StripPrefix(hex);
    forall r, s | 1 <= r < 4 && 0 <= s < n
      ensures g[r][s]
    {
      assert g[r][s] == NibbleBit(DigitValue(clean[s]), r);
      assert DigitValue(clean[s]) == 7;
    }
    InnerRingOnlyHasNoPassages(g, n);
  }
}
