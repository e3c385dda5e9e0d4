/**
 * Geometry of the 8x8 minesweeper table: cell positions, their place in
 * document order, the neighbour scan of getNeighbors and the adjacency
 * count of countAdjacentMines.
 */
module Grid {

  const Rows: int := 8
  const Cols: int := 8
  const TotalCells: int := 64  // Rows * Cols

  datatype Pos = Pos(row: int, col: int)

  predicate InGrid(p: Pos) {
    0 <= p.row < Rows && 0 <= p.col < Cols
  }

  /** Place of a cell in document order: the table is built row by row. */
  function Index(p: Pos): (i: nat)
    requires InGrid(p)
    ensures i < TotalCells
  {
    p.row * 8 + p.col
  }

  /** Different cells have different places in document order. */
  lemma IndexInjective(p: Pos, q: Pos)
    requires InGrid(p) && InGrid(q) && p != q
    ensures Index(p) != Index(q)
  {
  }

  /** The cell at a place in document order. */
  function PosOf(i: nat): (p: Pos)
    requires i < TotalCells
    ensures InGrid(p) && Index(p) == i
  {
    Pos(i / 8, i % 8)
  }

  /** Row-major order: the order in which the table's cells appear. */
  predicate Before(a: Pos, b: Pos) {
    a.row < b.row || (a.row == b.row && a.col < b.col)
  }

  predicate RowMajor(ns: seq<Pos>) {
    forall a, b :: 0 <= a < b < |ns| ==> Before(ns[a], ns[b])
  }

  /** q lies on the grid at Chebyshev distance exactly 1 from p. */
  predicate IsNeighbor(p: Pos, q: Pos) {
    InGrid(q) && q != p &&
    p.row - 1 <= q.row <= p.row + 1 &&
    p.col - 1 <= q.col <= p.col + 1
  }

  /** The inner loop of getNeighbors: offsets j, j+1, .., 1 in row offset i. */
  function ScanCols(p: Pos, i: int, j: int): seq<Pos>
    requires -1 <= i <= 1 && -1 <= j <= 2
    decreases 2 - j
  {
    if j > 1 then [] else Here(p, i, j) + ScanCols(p, i, j + 1)
  }

  /** The cell at offset (i, j) if getNeighbors pushes it: not the centre, and on the table. */
  function Here(p: Pos, i: int, j: int): seq<Pos> {
    var q := Pos(p.row + i, p.col + j);
    if (i == 0 && j == 0) || !InGrid(q) then [] else [q]
  }

  /** The inner scan yields the neighbours in row p.row + i from column p.col + j on. */
  lemma {:induction false} ScanColsMember(p: Pos, i: int, j: int, x: Pos)
    requires -1 <= i <= 1 && -1 <= j <= 2
    decreases 2 - j
    ensures x in ScanCols(p, i, j) <==>
      IsNeighbor(p, x) && x.row == p.row + i && p.col + j <= x.col
  {
    if j <= 1 {
      ScanColsMember(p, i, j + 1, x);
    }
  }

  /** ... left to right. */
  lemma {:induction false} ScanColsOrdered(p: Pos, i: int, j: int, a: nat, b: nat)
    requires -1 <= i <= 1 && -1 <= j <= 2
    requires a < b < |ScanCols(p, i, j)|
    decreases 2 - j
    ensures Before(ScanCols(p, i, j)[a], ScanCols(p, i, j)[b])
  {
    var s := ScanCols(p, i, j);
    var rest := ScanCols(p, i, j + 1);
    var here := Here(p, i, j);
    assert s == here + rest;
    if here == [] {
      assert s == rest;
      ScanColsOrdered(p, i, j + 1, a, b);
    } else {
      assert s[b] == rest[b - 1];
      if a == 0 {
        assert s[0] == Pos(p.row + i, p.col + j);
        assert rest[b - 1] in rest;
        ScanColsMember(p, i, j + 1, rest[b - 1]);
      } else {
        assert s[a] == rest[a - 1];
        ScanColsOrdered(p, i, j + 1, a - 1, b - 1);
      }
    }
  }

  lemma {:induction false} ScanColsLength(p: Pos, i: int, j: int)
    requires -1 <= i <= 1 && -1 <= j <= 2
    decreases 2 - j
    ensures |ScanCols(p, i, j)| <= 2 - j - (if i == 0 && j <= 0 then 1 else 0)
  {
    if j <= 1 {
      ScanColsLength(p, i, j + 1);
    }
  }

  /** The outer loop of getNeighbors: row offsets i, i+1, .., 1. */
  function ScanRows(p: Pos, i: int): seq<Pos>
    requires -1 <= i <= 2
    decreases 2 - i
  {
    if i > 1 then [] else ScanCols(p, i, -1) + ScanRows(p, i + 1)
  }

  /** The outer scan yields the neighbours from row p.row + i on. */
  lemma {:induction false} ScanRowsMember(p: Pos, i: int, x: Pos)
    requires -1 <= i <= 2
    decreases 2 - i
    ensures x in ScanRows(p, i) <==> IsNeighbor(p, x) && p.row + i <= x.row
  {
    if i <= 1 {
      ScanColsMember(p, i, -1, x);
      ScanRowsMember(p, i + 1, x);
    }
  }

  /** ... in row-major order. */
  lemma {:induction false} ScanRowsOrdered(p: Pos, i: int, a: nat, b: nat)
    requires -1 <= i <= 2
    requires a < b < |ScanRows(p, i)|
    decreases 2 - i
    ensures Before(ScanRows(p, i)[a], ScanRows(p, i)[b])
  {
    var here := ScanCols(p, i, -1);
    var rest := ScanRows(p, i + 1);
    var s := here + rest;
    if b < |here| {
      ScanColsOrdered(p, i, -1, a, b);
    } else if a < |here| {
      assert s[a] == here[a] && here[a] in here;
      assert s[b] == rest[b - |here|] && rest[b - |here|] in rest;
      ScanColsMember(p, i, -1, here[a]);
      ScanRowsMember(p, i + 1, rest[b - |here|]);
    } else {
      ScanRowsOrdered(p, i + 1, a - |here|, b - |here|);
    }
  }

  lemma {:induction false} ScanRowsLength(p: Pos, i: int)
    requires -1 <= i <= 2
    decreases 2 - i
    ensures |ScanRows(p, i)| <= 3 * (2 - i) - (if i <= 0 then 1 else 0)
  {
    if i <= 1 {
      ScanColsLength(p, i, -1);
      ScanRowsLength(p, i + 1);
    }
  }

  /** What getNeighbors yields: every neighbour, once each, in row-major order, at most 8. */
  lemma ScanRowsFacts(p: Pos)
    ensures forall q :: q in ScanRows(p, -1) <==> IsNeighbor(p, q)
    ensures RowMajor(ScanRows(p, -1))
    ensures |ScanRows(p, -1)| <= 8
  {
    forall x ensures x in ScanRows(p, -1) <==> IsNeighbor(p, x) {
      ScanRowsMember(p, -1, x);
    }
    forall a, b | 0 <= a < b < |ScanRows(p, -1)|
      ensures Before(ScanRows(p, -1)[a], ScanRows(p, -1)[b]) {
      ScanRowsOrdered(p, -1, a, b);
    }
    ScanRowsLength(p, -1);
  }

  /**
   * getNeighbors: the cells of the 3x3 block around p, centre excluded,
   * clipped at the edges of the table, in row-major order.
   */
  function Neighbors(p: Pos): (ns: seq<Pos>)
    ensures forall q :: q in ns <==> IsNeighbor(p, q)
    ensures RowMajor(ns)
    ensures |ns| <= 8
  {
    ScanRowsFacts(p);
    ScanRows(p, -1)
  }

  /**
   * getNeighbors as the loops that push each offset (i, j) other than
   * (0, 0) whose row and column exist.
   */
  method GetNeighbors(p: Pos) returns (ns: seq<Pos>)
    ensures ns == Neighbors(p)
    ensures forall q :: q in ns <==> IsNeighbor(p, q)
    ensures RowMajor(ns)
  {
    ns := [];
    for i := -1 to 2
      invariant ns + ScanRows(p, i) == Neighbors(p)
    {
      ghost var row := ns + ScanCols(p, i, -1);
      RowsOpen(p, i, ns);
      for j := -1 to 2
        invariant ns + ScanCols(p, i, j) == row
      {
        ColsAdvance(p, i, j, ns);
        var q := Pos(p.row + i, p.col + j);
        if !(i == 0 && j == 0) && 0 <= q.row < Rows && 0 <= q.col < Cols {
          ns := ns + [q];
        }
      }
      ScanEnd(ns, ScanCols(p, i, 2));
    }
    ScanEnd(ns, ScanRows(p, 2));
  }

  /** Entering row offset i of getNeighbors. */
  lemma RowsOpen(p: Pos, i: int, ns: seq<Pos>)
    requires -1 <= i <= 1
    ensures ns + ScanRows(p, i) == (ns + ScanCols(p, i, -1)) + ScanRows(p, i + 1)
  {
  }

  /** Offset (i, j) of getNeighbors: the pushed cell, if any, moves from the scan to the result. */
  lemma ColsAdvance(p: Pos, i: int, j: int, ns: seq<Pos>)
    requires -1 <= i <= 1 && -1 <= j <= 1
    ensures var q := Pos(p.row + i, p.col + j);
      ns + ScanCols(p, i, j) ==
        (if !(i == 0 && j == 0) && 0 <= q.row < Rows && 0 <= q.col < Cols then ns + [q] else ns) +
        ScanCols(p, i, j + 1)
  {
    var q := Pos(p.row + i, p.col + j);
    if !(i == 0 && j == 0) && 0 <= q.row < Rows && 0 <= q.col < Cols {
      assert ScanCols(p, i, j) == [q] + ScanCols(p, i, j + 1);
    } else {
      assert ScanCols(p, i, j) == ScanCols(p, i, j + 1);
    }
  }

  lemma ScanEnd(ns: seq<Pos>, rest: seq<Pos>)
    requires rest == []
    ensures ns + rest == ns
  {
  }

  /** Neighbourhood is symmetric between cells of the table. */
  lemma NeighborsSymmetric(a: Pos, b: Pos)
    requires InGrid(a) && InGrid(b)
    ensures b in Neighbors(a) <==> a in Neighbors(b)
  {
  }

  /** The reduce of countAdjacentMines over a list of cells. */
  function MinesAmong(mines: seq<bool>, ns: seq<Pos>): nat
    requires |mines| == TotalCells
    requires forall q :: q in ns ==> InGrid(q)
  {
    if ns == [] then 0
    else (if mines[Index(ns[0])] then 1 else 0) + MinesAmong(mines, ns[1..])
  }

  lemma {:induction false} MinesAmongCounts(mines: seq<bool>, ns: seq<Pos>)
    requires |mines| == TotalCells
    requires forall q :: q in ns ==> InGrid(q)
    requires RowMajor(ns)
    ensures MinesAmong(mines, ns) == |set q | q in ns && mines[Index(q)]|
    ensures MinesAmong(mines, ns) <= |ns|
  {
    if ns != [] {
      MinesAmongCounts(mines, ns[1..]);
      var rest := set q | q in ns[1..] && mines[Index(q)];
      assert forall k :: 1 <= k < |ns| ==> Before(ns[0], ns[k]);
      assert ns[0] !in ns[1..];
      if mines[Index(ns[0])] {
        assert (set q | q in ns && mines[Index(q)]) == rest + {ns[0]};
      } else {
        assert (set q | q in ns && mines[Index(q)]) == rest;
      }
    }
  }

  /**
   * countAdjacentMines: the number of mined cells among the neighbours
   * of p, so at most 8.
   */
  function AdjacentMines(mines: seq<bool>, p: Pos): (n: nat)
    requires |mines| == TotalCells
    ensures n == |set q | q in Neighbors(p) && mines[Index(q)]|
    ensures n <= 8
  {
    MinesAmongCounts(mines, Neighbors(p));
    MinesAmong(mines, Neighbors(p))
  }

  /** No neighbour of p is mined. */
  ghost predicate NoAdjacentMine(mines: seq<bool>, p: Pos)
    requires |mines| == TotalCells
  {
    forall q :: IsNeighbor(p, q) ==> !mines[Index(q)]
  }

  /** revealSafeCell stops at a count above 0: the count is 0 exactly when no neighbour is mined. */
  lemma ZeroCountIffNoAdjacentMine(mines: seq<bool>, p: Pos)
    requires |mines| == TotalCells
    ensures AdjacentMines(mines, p) == 0 <==> NoAdjacentMine(mines, p)
  {
    var s := set q | q in Neighbors(p) && mines[Index(q)];
    if !NoAdjacentMine(mines, p) {
      var q :| IsNeighbor(p, q) && mines[Index(q)];
      assert q in s;
    } else {
      assert s == {};
    }
  }
}
