/**
 * The state of the table's cells as a value: one record per td, in
 * document order, and what a flood fill started at one cell must do to it.
 */
module Board {
  import opened Grid

  /** Number of mines laid on each new board. */
  const TotalMines: int := 10

  /**
   * One td of the table: dataset.mine, and whether it carries the classes
   * emptyCell (revealed as safe), flagCell (flagged) and mineCell (shown
   * as a mine).
   */
  datatype Cell = Cell(hasMine: bool, revealed: bool, flagged: bool, shownAsMine: bool)

  /** A td as generateBoard creates it: dataset.mine = 'false', no class. */
  const Blank: Cell := Cell(false, false, false, false)

  /** The mine layout of a board: what countAdjacentMines reads. */
  function Layout(b: seq<Cell>): (m: seq<bool>)
    ensures |m| == |b|
    ensures forall i :: 0 <= i < |b| ==> m[i] == b[i].hasMine
  {
    seq(|b|, i requires 0 <= i < |b| => b[i].hasMine)
  }

  function MinedCells(b: seq<Cell>): set<int> {
    set i | 0 <= i < |b| && b[i].hasMine
  }

  /** The cells marked revealed (class emptyCell); checkVictory counts them. */
  function RevealedCells(b: seq<Cell>): set<int> {
    set i | 0 <= i < |b| && b[i].revealed
  }

  /** The cells that carry the flagCell class. */
  function FlaggedCells(b: seq<Cell>): set<int> {
    set i | 0 <= i < |b| && b[i].flagged
  }

  function UnrevealedCells(b: seq<Cell>): set<int> {
    set i | 0 <= i < |b| && !b[i].revealed
  }

  ghost predicate RevealedAreSafe(b: seq<Cell>) {
    forall i :: 0 <= i < |b| && b[i].revealed ==> !b[i].hasMine
  }

  ghost predicate AllSafeRevealed(b: seq<Cell>) {
    forall i :: 0 <= i < |b| && !b[i].hasMine ==> b[i].revealed
  }

  /** b2 differs from b1 at most by cells that became revealed. */
  ghost predicate RevealsOnly(b1: seq<Cell>, b2: seq<Cell>) {
    |b1| == |b2| &&
    forall i :: 0 <= i < |b1| ==>
      b2[i] == b1[i].(revealed := b2[i].revealed) && (b1[i].revealed ==> b2[i].revealed)
  }

  ghost predicate Newly(b1: seq<Cell>, b2: seq<Cell>, q: Pos)
    requires |b1| == |b2| == TotalCells && InGrid(q)
  {
    !b1[Index(q)].revealed && b2[Index(q)].revealed
  }

  /**
   * The stopping rule of revealSafeCell, seen from the result: a revealed
   * cell without adjacent mines has every mine-free neighbour revealed.
   */
  ghost predicate ZeroClosed(b: seq<Cell>, p: Pos)
    requires |b| == TotalCells && InGrid(p)
  {
    b[Index(p)].revealed && NoAdjacentMine(Layout(b), p) ==>
      forall q :: IsNeighbor(p, q) ==> b[Index(q)].hasMine || b[Index(q)].revealed
  }

  ghost predicate Closed(b: seq<Cell>)
    requires |b| == TotalCells
  {
    forall p :: InGrid(p) ==> ZeroClosed(b, p)
  }

  /** revealNeighbors of a walks to b: a has no adjacent mine and b is next to it. */
  ghost predicate Link(mines: seq<bool>, a: Pos, b: Pos)
    requires |mines| == TotalCells
  {
    IsNeighbor(a, b) && NoAdjacentMine(mines, a)
  }

  /** The k-th cell of order is reached from an earlier one. */
  ghost predicate ReachedFromEarlier(mines: seq<bool>, order: seq<Pos>, k: nat)
    requires |mines| == TotalCells && k < |order|
  {
    exists j :: 0 <= j < k && Link(mines, order[j], order[k])
  }

  /** Every cell of order from position start on is reached from an earlier one. */
  ghost predicate Chain(mines: seq<bool>, order: seq<Pos>, start: nat)
    requires |mines| == TotalCells
  {
    forall k :: start <= k < |order| ==> ReachedFromEarlier(mines, order, k)
  }

  ghost predicate Distinct(s: seq<Pos>) {
    forall a, b :: 0 <= a < b < |s| ==> s[a] != s[b]
  }

  /**
   * B is what a flood fill (revealSafeCell) started at the mine-free cell p
   * makes of O, revealing the cells of order in that order: nothing but
   * revealed marks change; p ends up revealed; the cells that became
   * revealed are exactly those of order, each once, none of them mined;
   * each of them with no adjacent mine has all its mine-free neighbours
   * revealed; and order starts at p, each later cell being a neighbour of
   * an earlier one with no adjacent mine.
   */
  ghost predicate FloodFilled(O: seq<Cell>, B: seq<Cell>, p: Pos, order: seq<Pos>)
    requires |O| == TotalCells && InGrid(p)
  {
    RevealsOnly(O, B) &&
    B[Index(p)].revealed &&
    (forall q :: q in order ==> InGrid(q)) &&
    (forall q :: InGrid(q) ==> (Newly(O, B, q) <==> q in order)) &&
    (forall q :: q in order ==> !O[Index(q)].hasMine) &&
    (forall q :: q in order ==> ZeroClosed(B, q)) &&
    Distinct(order) &&
    (order == [] || (order[0] == p && Chain(Layout(O), order, 1)))
  }

  /**
   * What revealNeighbors of p makes of O, revealing the cells of order:
   * FloodFilled without the start cell, each cell of order reached from p
   * or from an earlier cell of order.
   */
  ghost predicate NeighborsFilled(O: seq<Cell>, B: seq<Cell>, p: Pos, order: seq<Pos>)
    requires |O| == TotalCells && InGrid(p)
  {
    RevealsOnly(O, B) &&
    (forall q :: q in order ==> InGrid(q)) &&
    (forall q :: InGrid(q) ==> (Newly(O, B, q) <==> q in order)) &&
    (forall q :: q in order ==> !O[Index(q)].hasMine) &&
    (forall q :: q in order ==> ZeroClosed(B, q)) &&
    Distinct(order) &&
    Chain(Layout(O), [p] + order, 1)
  }

  /** The first j neighbours in ns are mined or revealed. */
  ghost predicate Covered(b: seq<Cell>, ns: seq<Pos>, j: nat)
    requires |b| == TotalCells && j <= |ns|
    requires forall q :: q in ns ==> InGrid(q)
  {
    forall k :: 0 <= k < j ==> b[Index(ns[k])].hasMine || b[Index(ns[k])].revealed
  }

  /** b with the revealed mark set on p. */
  function Mark(b: seq<Cell>, p: Pos): (m: seq<Cell>)
    requires |b| == TotalCells && InGrid(p)
    ensures |m| == TotalCells
  {
    b[Index(p) := b[Index(p)].(revealed := true)]
  }

  lemma RevealsOnlyShrinks(b1: seq<Cell>, b2: seq<Cell>)
    requires RevealsOnly(b1, b2)
    ensures UnrevealedCells(b2) <= UnrevealedCells(b1)
  {
  }

  lemma MarkShrinks(b: seq<Cell>, p: Pos)
    requires |b| == TotalCells && InGrid(p) && !b[Index(p)].revealed
    ensures UnrevealedCells(Mark(b, p)) < UnrevealedCells(b)
  {
    assert Index(p) in UnrevealedCells(b);
  }

  lemma SpreadStart(O: seq<Cell>, p: Pos)
    requires |O| == TotalCells && InGrid(p)
    ensures NeighborsFilled(O, O, p, [])
  {
  }

  /** One step of the forEach in revealNeighbors: a flood fill from the neighbour q. */
  lemma SpreadStep(O: seq<Cell>, B1: seq<Cell>, B2: seq<Cell>, p: Pos, q: Pos,
                   order: seq<Pos>, sub: seq<Pos>)
    requires |O| == TotalCells && InGrid(p) && InGrid(q)
    requires IsNeighbor(p, q) && NoAdjacentMine(Layout(O), p)
    requires NeighborsFilled(O, B1, p, order)
    requires FloodFilled(B1, B2, q, sub)
    ensures NeighborsFilled(O, B2, p, order + sub)
  {
    RevealsOnlyKeepsLayout(O, B1);
    RevealsOnlyTransitive(O, B1, B2);
    forall x | x in order ensures ZeroClosed(B2, x) {
      assert B1[Index(x)].revealed by {
        assert Newly(O, B1, x);
      }
      ZeroClosedGrows(B1, B2, x);
    }
    ChainExtend(Layout(O), [p] + order, sub, q);
    assert ([p] + order) + sub == [p] + (order + sub);
    var s := order + sub;
    forall a, b | 0 <= a < b < |s| ensures s[a] != s[b] {
      if a < |order| && b >= |order| {
        assert Newly(O, B1, s[a]);
        assert Newly(B1, B2, s[b]);
      }
    }
    forall x | InGrid(x) ensures Newly(O, B2, x) <==> x in s {
      assert Newly(O, B2, x) <==> Newly(O, B1, x) || Newly(B1, B2, x);
    }
  }

  lemma CoveredStep(B1: seq<Cell>, B2: seq<Cell>, ns: seq<Pos>, j: nat)
    requires |B1| == TotalCells && j < |ns|
    requires forall q :: q in ns ==> InGrid(q)
    requires Covered(B1, ns, j) && RevealsOnly(B1, B2)
    requires B2[Index(ns[j])].hasMine || B2[Index(ns[j])].revealed
    ensures Covered(B2, ns, j + 1)
  {
  }

  /** After the forEach, p has all its mine-free neighbours revealed. */
  lemma SpreadDone(B: seq<Cell>, p: Pos)
    requires |B| == TotalCells && InGrid(p)
    requires Covered(B, Neighbors(p), |Neighbors(p)|)
    ensures ZeroClosed(B, p)
  {
    var ns := Neighbors(p);
    forall q | IsNeighbor(p, q) ensures B[Index(q)].hasMine || B[Index(q)].revealed {
      assert q in ns;
      var k :| 0 <= k < |ns| && ns[k] == q;
    }
  }

  /** revealSafeCell with adjacent mines: only p is revealed. */
  lemma FloodStops(O: seq<Cell>, p: Pos)
    requires |O| == TotalCells && InGrid(p)
    requires !O[Index(p)].revealed && !O[Index(p)].hasMine
    requires !NoAdjacentMine(Layout(Mark(O, p)), p)
    ensures FloodFilled(O, Mark(O, p), p, [p])
  {
    var B := Mark(O, p);
    assert Layout(B) == Layout(O);
    forall q | InGrid(q) ensures Newly(O, B, q) <==> q in [p] {
      if q != p {
        IndexInjective(p, q);
      }
    }
  }

  /** revealSafeCell without adjacent mines: p, then what revealNeighbors revealed. */
  lemma FloodSpreads(O: seq<Cell>, B: seq<Cell>, p: Pos, rest: seq<Pos>)
    requires |O| == TotalCells && InGrid(p)
    requires !O[Index(p)].revealed && !O[Index(p)].hasMine
    requires NeighborsFilled(Mark(O, p), B, p, rest) && ZeroClosed(B, p)
    ensures FloodFilled(O, B, p, [p] + rest)
  {
    var M := Mark(O, p);
    assert RevealsOnly(O, M);
    RevealsOnlyKeepsLayout(O, M);
    RevealsOnlyTransitive(O, M, B);
    assert p !in rest by {
      assert !Newly(M, B, p);
    }
    forall q | InGrid(q) ensures Newly(O, B, q) <==> q in [p] + rest {
      if q != p {
        IndexInjective(p, q);
        assert O[Index(q)] == M[Index(q)];
      }
    }
  }

  /** revealSafeCell on a revealed cell does nothing. */
  lemma FloodNoop(O: seq<Cell>, p: Pos)
    requires |O| == TotalCells && InGrid(p) && O[Index(p)].revealed
    ensures FloodFilled(O, O, p, [])
  {
  }

  lemma RevealsOnlyKeepsLayout(b1: seq<Cell>, b2: seq<Cell>)
    requires RevealsOnly(b1, b2)
    ensures Layout(b1) == Layout(b2)
  {
  }

  lemma RevealsOnlyTransitive(b1: seq<Cell>, b2: seq<Cell>, b3: seq<Cell>)
    requires RevealsOnly(b1, b2) && RevealsOnly(b2, b3)
    ensures RevealsOnly(b1, b3)
  {
  }

  /** Whether a board is closed depends only on its mines and its revealed marks. */
  lemma ClosedIgnoresMarks(b1: seq<Cell>, b2: seq<Cell>)
    requires |b1| == |b2| == TotalCells && Closed(b1)
    requires forall i :: 0 <= i < |b1| ==> b1[i].hasMine == b2[i].hasMine && b1[i].revealed == b2[i].revealed
    ensures Closed(b2)
  {
    assert Layout(b1) == Layout(b2);
  }

  /**
   * Setting or clearing a flag leaves the mines and the revealed marks as
   * they are, and adds or removes that one cell from the flagged set.
   */
  lemma FlagKeeps(b: seq<Cell>, i: nat, f: bool)
    requires |b| == TotalCells && i < TotalCells
    ensures MinedCells(b[i := b[i].(flagged := f)]) == MinedCells(b)
    ensures RevealedCells(b[i := b[i].(flagged := f)]) == RevealedCells(b)
    ensures RevealedAreSafe(b) ==> RevealedAreSafe(b[i := b[i].(flagged := f)])
    ensures Closed(b) ==> Closed(b[i := b[i].(flagged := f)])
    ensures FlaggedCells(b[i := b[i].(flagged := f)]) ==
      if f then FlaggedCells(b) + {i} else FlaggedCells(b) - {i}
  {
    var b2 := b[i := b[i].(flagged := f)];
    assert Layout(b2) == Layout(b);
    if Closed(b) {
      ClosedIgnoresMarks(b, b2);
    }
  }

  /** Appending the cells a flood fill from a neighbour q of pre[0] revealed keeps the chain. */
  lemma ChainExtend(mines: seq<bool>, pre: seq<Pos>, sub: seq<Pos>, q: Pos)
    requires |mines| == TotalCells && |pre| > 0
    requires Chain(mines, pre, 1) && Link(mines, pre[0], q)
    requires sub == [] || (sub[0] == q && Chain(mines, sub, 1))
    ensures Chain(mines, pre + sub, 1)
  {
    var s := pre + sub;
    forall k | 1 <= k < |s| ensures ReachedFromEarlier(mines, s, k) {
      if k < |pre| {
        assert ReachedFromEarlier(mines, pre, k);
        var j :| 0 <= j < k && Link(mines, pre[j], pre[k]);
        assert s[j] == pre[j] && s[k] == pre[k];
        assert Link(mines, s[j], s[k]);
      } else if k == |pre| {
        assert s[0] == pre[0] && s[k] == q;
        assert Link(mines, s[0], s[k]);
      } else {
        var m := k - |pre|;
        assert 1 <= m < |sub|;
        assert ReachedFromEarlier(mines, sub, m);
        var j :| 0 <= j < m && Link(mines, sub[j], sub[m]);
        assert s[|pre| + j] == sub[j] && s[k] == sub[m];
        assert Link(mines, s[|pre| + j], s[k]);
      }
    }
  }

  /** A revealed cell that is closed stays closed while more cells are revealed. */
  lemma ZeroClosedGrows(b1: seq<Cell>, b2: seq<Cell>, p: Pos)
    requires |b1| == TotalCells && InGrid(p)
    requires RevealsOnly(b1, b2) && b1[Index(p)].revealed && ZeroClosed(b1, p)
    ensures ZeroClosed(b2, p)
  {
    RevealsOnlyKeepsLayout(b1, b2);
  }

  /**
   * The outcome of a flood fill does not depend on the order in which it
   * walks the neighbours: any two boards with the FloodFilled property for
   * the same start are equal.
   */
  lemma FloodFillDetermined(O: seq<Cell>, B1: seq<Cell>, B2: seq<Cell>, p: Pos,
                            o1: seq<Pos>, o2: seq<Pos>)
    requires |O| == TotalCells && InGrid(p)
    requires FloodFilled(O, B1, p, o1) && FloodFilled(O, B2, p, o2)
    ensures B1 == B2
  {
    forall k | 0 <= k < |o1| ensures o1[k] in o2 {
      Reached(O, B1, B2, p, o1, o2, k);
    }
    forall k | 0 <= k < |o2| ensures o2[k] in o1 {
      Reached(O, B2, B1, p, o2, o1, k);
    }
    forall i | 0 <= i < TotalCells ensures B1[i] == B2[i] {
      var q := PosOf(i);
      assert Newly(O, B1, q) <==> Newly(O, B2, q);
    }
  }

  /** Each cell a flood fill reveals is revealed by any other flood fill from the same start. */
  lemma {:induction false} Reached(O: seq<Cell>, B1: seq<Cell>, B2: seq<Cell>, p: Pos,
                                   o1: seq<Pos>, o2: seq<Pos>, k: nat)
    requires |O| == TotalCells && InGrid(p)
    requires FloodFilled(O, B1, p, o1) && FloodFilled(O, B2, p, o2)
    requires k < |o1|
    ensures o1[k] in o2
    decreases k
  {
    var q := o1[k];
    assert Newly(O, B1, q);
    if k == 0 {
      assert Newly(O, B2, p);
    } else {
      assert ReachedFromEarlier(Layout(O), o1, k);
      var j :| 0 <= j < k && Link(Layout(O), o1[j], q);
      Reached(O, B1, B2, p, o1, o2, j);
      RevealsOnlyKeepsLayout(O, B2);
      assert ZeroClosed(B2, o1[j]);
      assert Newly(O, B2, q);
    }
  }

  /** The flood fill reveals no mine. */
  lemma SafeAfterFlood(O: seq<Cell>, B: seq<Cell>, p: Pos, order: seq<Pos>)
    requires |O| == TotalCells && InGrid(p)
    requires RevealedAreSafe(O) && FloodFilled(O, B, p, order)
    ensures RevealedAreSafe(B)
  {
    forall i | 0 <= i < |B| && B[i].revealed ensures !B[i].hasMine {
      if !O[i].revealed {
        assert Newly(O, B, PosOf(i));
      }
    }
  }

  /** The flood fill keeps the board closed. */
  lemma ClosedAfterFlood(O: seq<Cell>, B: seq<Cell>, p: Pos, order: seq<Pos>)
    requires |O| == TotalCells && InGrid(p)
    requires Closed(O) && FloodFilled(O, B, p, order)
    ensures Closed(B)
  {
    forall q | InGrid(q) ensures ZeroClosed(B, q) {
      if q !in order && B[Index(q)].revealed {
        assert !Newly(O, B, q);
        ZeroClosedGrows(O, B, q);
      }
    }
  }

  function SafeCells(b: seq<Cell>): set<int> {
    set i | 0 <= i < |b| && !b[i].hasMine
  }

  /** Every cell is either mined or mine-free. */
  lemma {:induction false} MinedOrSafe(b: seq<Cell>)
    ensures |MinedCells(b)| + |SafeCells(b)| == |b|
  {
    if b != [] {
      var n := |b| - 1;
      var c := b[..n];
      MinedOrSafe(c);
      if b[n].hasMine {
        assert MinedCells(b) == MinedCells(c) + {n};
        assert SafeCells(b) == SafeCells(c);
      } else {
        assert MinedCells(b) == MinedCells(c);
        assert SafeCells(b) == SafeCells(c) + {n};
      }
    }
  }

  /**
   * checkVictory's test: with TotalMines mines and only mine-free cells
   * revealed, the number of revealed cells reaches TotalCells - TotalMines
   * exactly when every mine-free cell is revealed, and never exceeds it.
   */
  lemma VictoryCount(b: seq<Cell>)
    requires |b| == TotalCells && |MinedCells(b)| == TotalMines && RevealedAreSafe(b)
    ensures |RevealedCells(b)| <= TotalCells - TotalMines
    ensures |RevealedCells(b)| == TotalCells - TotalMines <==> AllSafeRevealed(b)
  {
    var safe := SafeCells(b);
    var R := RevealedCells(b);
    MinedOrSafe(b);
    assert R <= safe;
    assert safe == R + (safe - R);
    if !AllSafeRevealed(b) {
      var i :| 0 <= i < |b| && !b[i].hasMine && !b[i].revealed;
      assert i in safe - R;
    } else {
      assert R == safe;
    }
  }
}
