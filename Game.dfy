/**
 * The game: the table of cells, the flag counter and whether the board
 * still takes input, with the handlers for a click, a flag action and a
 * restart.
 */
module Game {
  import opened Grid
  import opened Board

  /** InProgress while the handlers are attached; endGame moves to Won or Lost. */
  datatype Status = InProgress | Won | Lost

  /**
   * A stream of draws Math.floor(Math.random() * 64), each naming a cell in
   * document order, long enough to hit TotalMines different cells.
   */
  predicate EnoughDraws(draws: seq<int>) {
    (forall k :: 0 <= k < |draws| ==> 0 <= draws[k] < TotalCells) &&
    |set x | x in draws| >= TotalMines
  }

  /** The cells named by the first n draws. */
  function Drawn(draws: seq<int>, n: nat): set<int>
    requires n <= |draws|
  {
    set x | x in draws[..n]
  }

  /**
   * The mines of b are the cells named by the first used draws; those name
   * TotalMines different cells and the last of them is new.
   */
  ghost predicate PlacedBy(b: seq<Cell>, draws: seq<int>, used: nat) {
    0 < used <= |draws| &&
    (forall i :: 0 <= i < |b| ==> (b[i].hasMine <==> i in Drawn(draws, used))) &&
    |Drawn(draws, used)| == TotalMines &&
    draws[used - 1] !in Drawn(draws, used - 1)
  }

  /**
   * generateBoard: 8 rows of 8 cells, numbered in document order, each
   * with dataset.mine = 'false' and no class.
   */
  method GenerateBoard() returns (a: array<Cell>)
    ensures fresh(a) && a.Length == TotalCells
    ensures forall i :: 0 <= i < a.Length ==> a[i] == Blank
  {
    a := new Cell[TotalCells];
    var cellId := 0;
    for row := 0 to Rows
      invariant cellId == row * 8
      invariant forall i :: 0 <= i < cellId ==> a[i] == Blank
    {
      for col := 0 to Cols
        invariant cellId == row * 8 + col
        invariant forall i :: 0 <= i < cellId ==> a[i] == Blank
      {
        a[cellId] := Blank;
        cellId := cellId + 1;
      }
    }
  }

  /** b is orig with exactly the cells named by the first used draws mined. */
  ghost predicate Placing(b: seq<Cell>, orig: seq<Cell>, draws: seq<int>, used: nat)
    requires used <= |draws|
  {
    |b| == |orig| &&
    forall i :: 0 <= i < |b| ==> b[i] == orig[i].(hasMine := i in Drawn(draws, used))
  }

  /**
   * placeMines: draw cells until TotalMines of them are mined; a drawn cell
   * is mined only if it is not mined yet.
   */
  method PlaceMines(a: array<Cell>, draws: seq<int>) returns (used: nat)
    requires a.Length == TotalCells && EnoughDraws(draws)
    requires forall i :: 0 <= i < a.Length ==> !a[i].hasMine
    modifies a
    ensures PlacedBy(a[..], draws, used)
    ensures forall i :: 0 <= i < a.Length ==> a[i] == old(a[i]).(hasMine := a[i].hasMine)
    ensures |MinedCells(a[..])| == TotalMines
  {
    var minesPlaced := 0;
    used := 0;
    while minesPlaced < TotalMines
      invariant used <= |draws| && minesPlaced <= TotalMines
      invariant minesPlaced < TotalMines ==> used < |draws|
      invariant Placing(a[..], old(a[..]), draws, used)
      invariant minesPlaced == |Drawn(draws, used)|
      invariant used > 0 && draws[used - 1] in Drawn(draws, used - 1) ==> minesPlaced < TotalMines
      decreases |draws| - used
    {
      var cell := draws[used];
      ghost var b := a[..];
      PlaceStep(b, old(a[..]), draws, used);
      if !a[cell].hasMine {
        a[cell] := a[cell].(hasMine := true);
        assert a[..] == b[cell := b[cell].(hasMine := true)];
        minesPlaced := minesPlaced + 1;
      }
      used := used + 1;
      if used == |draws| {
        DrawnAll(draws);
      }
    }
    MinesAreDrawn(a[..], old(a[..]), draws, used);
  }

  /** One draw of placeMines: the drawn cell is mined if it was not already. */
  lemma PlaceStep(b: seq<Cell>, orig: seq<Cell>, draws: seq<int>, used: nat)
    requires used < |draws| && 0 <= draws[used] < |b|
    requires Placing(b, orig, draws, used)
    ensures b[draws[used]].hasMine == (draws[used] in Drawn(draws, used))
    ensures b[draws[used]].hasMine ==> Placing(b, orig, draws, used + 1)
    ensures !b[draws[used]].hasMine ==>
      Placing(b[draws[used] := b[draws[used]].(hasMine := true)], orig, draws, used + 1)
    ensures |Drawn(draws, used + 1)| ==
      |Drawn(draws, used)| + (if draws[used] in Drawn(draws, used) then 0 else 1)
  {
    DrawnGrows(draws, used);
  }

  lemma MinesAreDrawn(b: seq<Cell>, orig: seq<Cell>, draws: seq<int>, used: nat)
    requires used <= |draws|
    requires forall k :: 0 <= k < |draws| ==> 0 <= draws[k] < |b|
    requires Placing(b, orig, draws, used)
    ensures forall i :: 0 <= i < |b| ==> (b[i].hasMine <==> i in Drawn(draws, used))
    ensures MinedCells(b) == Drawn(draws, used)
  {
  }

  lemma DrawnAll(draws: seq<int>)
    ensures Drawn(draws, |draws|) == set x | x in draws
  {
    assert draws[..|draws|] == draws;
  }

  lemma DrawnGrows(draws: seq<int>, n: nat)
    requires n < |draws|
    ensures Drawn(draws, n + 1) == Drawn(draws, n) + {draws[n]}
  {
    assert draws[..n + 1] == draws[..n] + [draws[n]];
  }

  /** generateBoard followed by placeMines. */
  method NewBoard(draws: seq<int>) returns (a: array<Cell>)
    requires EnoughDraws(draws)
    ensures fresh(a) && a.Length == TotalCells
    ensures exists used :: PlacedBy(a[..], draws, used)
    ensures |MinedCells(a[..])| == TotalMines
    ensures forall i :: 0 <= i < a.Length ==> !a[i].revealed && !a[i].flagged && !a[i].shownAsMine
  {
    a := GenerateBoard();
    var used := PlaceMines(a, draws);
  }

  class Game {
    /** The td's of the table in document order. */
    var cells: array<Cell>
    var currentFlags: int
    var status: Status

    ghost predicate Valid()
      reads this, cells
    {
      cells.Length == TotalCells &&
      |MinedCells(cells[..])| == TotalMines &&
      RevealedAreSafe(cells[..]) &&
      Closed(cells[..]) &&
      currentFlags == |FlaggedCells(cells[..])| <= TotalMines &&
      (forall i :: 0 <= i < TotalCells ==>
         (cells[i].shownAsMine <==> status == Lost && cells[i].hasMine)) &&
      (status == Won <==> |RevealedCells(cells[..])| == TotalCells - TotalMines)
    }

    /** initializeGame: a fresh board with its mines, no flag, input enabled. */
    constructor (draws: seq<int>)
      requires EnoughDraws(draws)
      ensures Valid() && fresh(cells)
      ensures status == InProgress && currentFlags == 0
      ensures exists used :: PlacedBy(cells[..], draws, used)
      ensures forall i :: 0 <= i < TotalCells ==>
        !cells[i].revealed && !cells[i].flagged && !cells[i].shownAsMine
    {
      var board := NewBoard(draws);
      currentFlags := 0;
      cells := board;
      status := InProgress;
      new;
      FreshBoardIsValid();
    }

    /** resetGame: drop the table and start over as initializeGame does. */
    method Reset(draws: seq<int>)
      requires EnoughDraws(draws)
      modifies this
      ensures Valid() && fresh(cells)
      ensures status == InProgress && currentFlags == 0
      ensures exists used :: PlacedBy(cells[..], draws, used)
      ensures forall i :: 0 <= i < TotalCells ==>
        !cells[i].revealed && !cells[i].flagged && !cells[i].shownAsMine
    {
      currentFlags := 0;
      cells := NewBoard(draws);
      status := InProgress;
      FreshBoardIsValid();
    }

    lemma FreshBoardIsValid()
      requires cells.Length == TotalCells && |MinedCells(cells[..])| == TotalMines
      requires status == InProgress && currentFlags == 0
      requires forall i :: 0 <= i < TotalCells ==>
        !cells[i].revealed && !cells[i].flagged && !cells[i].shownAsMine
      ensures Valid()
    {
      assert FlaggedCells(cells[..]) == {};
      assert RevealedCells(cells[..]) == {};
    }

    /**
     * handleCellClick. While the game is on, a mined cell loses the game
     * and shows every mine; any other cell is flood-filled and then the
     * victory check runs. Flags are not consulted.
     */
    method Click(p: Pos) returns (ghost order: seq<Pos>)
      requires Valid() && InGrid(p)
      modifies this, cells
      ensures Valid() && cells == old(cells) && currentFlags == old(currentFlags)
      ensures old(status) != InProgress ==> status == old(status) && cells[..] == old(cells[..])
      ensures old(status) == InProgress && old(cells[Index(p)]).hasMine ==>
        status == Lost &&
        forall i :: 0 <= i < TotalCells ==>
          cells[i] == old(cells[i]).(shownAsMine := old(cells[i]).hasMine)
      ensures old(status) == InProgress && !old(cells[Index(p)]).hasMine ==>
        FloodFilled(old(cells[..]), cells[..], p, order) &&
        status != Lost &&
        (status == Won <==> AllSafeRevealed(cells[..]))
    {
      order := [];
      if status != InProgress {
        return;
      }
      if cells[Index(p)].hasMine {
        RevealCell(p);
        EndGame(false);
        assert RevealedCells(cells[..]) == RevealedCells(old(cells[..]));
        assert MinedCells(cells[..]) == MinedCells(old(cells[..]));
        assert FlaggedCells(cells[..]) == FlaggedCells(old(cells[..]));
        ClosedIgnoresMarks(old(cells[..]), cells[..]);
      } else {
        order := RevealSafeCell(p);
        RevealsOnlyKeepsLayout(old(cells[..]), cells[..]);
        assert MinedCells(cells[..]) == MinedCells(old(cells[..]));
        assert FlaggedCells(cells[..]) == FlaggedCells(old(cells[..]));
        ClosedAfterFlood(old(cells[..]), cells[..], p, order);
        SafeAfterFlood(old(cells[..]), cells[..], p, order);
        CheckVictory();
        VictoryCount(cells[..]);
      }
    }

    /** revealCell: show the clicked mine and every other mine. */
    method RevealCell(p: Pos)
      requires cells.Length == TotalCells && InGrid(p) && cells[Index(p)].hasMine
      modifies cells
      ensures forall i :: 0 <= i < TotalCells ==>
        cells[i] == old(cells[i]).(shownAsMine := old(cells[i]).shownAsMine || old(cells[i]).hasMine)
    {
      cells[Index(p)] := cells[Index(p)].(shownAsMine := true);
      for i := 0 to cells.Length
        invariant forall k :: 0 <= k < i ==>
          cells[k] == old(cells[k]).(shownAsMine := old(cells[k]).shownAsMine || old(cells[k]).hasMine)
        invariant forall k :: i <= k < cells.Length ==>
          cells[k] == if k == Index(p) then old(cells[k]).(shownAsMine := true) else old(cells[k])
      {
        if cells[i].hasMine {
          cells[i] := cells[i].(shownAsMine := true);
        }
      }
    }

    /**
     * revealSafeCell: reveal p unless it is revealed already; with no
     * adjacent mine, go on into the neighbours.
     */
    method RevealSafeCell(p: Pos) returns (ghost order: seq<Pos>)
      requires cells.Length == TotalCells && InGrid(p) && !cells[Index(p)].hasMine
      modifies cells
      ensures FloodFilled(old(cells[..]), cells[..], p, order)
      ensures old(cells[Index(p)]).revealed ==> cells[..] == old(cells[..])
      decreases UnrevealedCells(cells[..]), 1
    {
      if !cells[Index(p)].revealed {
        ghost var before := cells[..];
        cells[Index(p)] := cells[Index(p)].(revealed := true);
        assert cells[..] == Mark(before, p);
        var mineCount := AdjacentMines(Layout(cells[..]), p);
        ZeroCountIffNoAdjacentMine(Layout(cells[..]), p);
        if mineCount > 0 {
          FloodStops(before, p);
          order := [p];
        } else {
          MarkShrinks(before, p);
          var rest := RevealNeighbors(p);
          FloodSpreads(before, cells[..], p, rest);
          order := [p] + rest;
        }
      } else {
        FloodNoop(cells[..], p);
        order := [];
      }
    }

    /** revealNeighbors: flood-fill every unrevealed mine-free neighbour of p, in row-major order. */
    method RevealNeighbors(p: Pos) returns (ghost order: seq<Pos>)
      requires cells.Length == TotalCells && InGrid(p)
      requires cells[Index(p)].revealed && NoAdjacentMine(Layout(cells[..]), p)
      modifies cells
      ensures NeighborsFilled(old(cells[..]), cells[..], p, order)
      ensures ZeroClosed(cells[..], p)
      decreases UnrevealedCells(cells[..]), 3
    {
      ghost var start := cells[..];
      var ns := GetNeighbors(p);
      order := [];
      SpreadStart(start, p);
      for j := 0 to |ns|
        invariant NeighborsFilled(start, cells[..], p, order)
        invariant Covered(cells[..], ns, j)
      {
        ghost var before := cells[..];
        ghost var sub;
        order, sub := VisitNeighbor(p, ns[j], start, order);
        CoveredStep(before, cells[..], ns, j);
      }
      SpreadDone(cells[..], p);
    }

    /**
     * The callback of the forEach in revealNeighbors, for the neighbour q:
     * flood-fill from q if it is unrevealed and mine-free. order is what
     * the earlier neighbours revealed since start.
     */
    method VisitNeighbor(p: Pos, q: Pos, ghost start: seq<Cell>, ghost order: seq<Pos>)
      returns (ghost order': seq<Pos>, ghost sub: seq<Pos>)
      requires cells.Length == TotalCells && |start| == TotalCells && InGrid(p) && IsNeighbor(p, q)
      requires NoAdjacentMine(Layout(start), p)
      requires NeighborsFilled(start, cells[..], p, order)
      modifies cells
      ensures order' == order + sub
      ensures old(cells[Index(q)]).revealed || old(cells[Index(q)]).hasMine ==>
        cells[..] == old(cells[..]) && sub == []
      ensures !old(cells[Index(q)]).revealed && !old(cells[Index(q)]).hasMine ==>
        FloodFilled(old(cells[..]), cells[..], q, sub)
      ensures NeighborsFilled(start, cells[..], p, order')
      ensures RevealsOnly(old(cells[..]), cells[..])
      ensures cells[Index(q)].hasMine || cells[Index(q)].revealed
      decreases UnrevealedCells(start), 2
    {
      sub := [];
      order' := order;
      if !cells[Index(q)].revealed && !cells[Index(q)].hasMine {
        ghost var before := cells[..];
        RevealsOnlyShrinks(start, before);
        sub := RevealSafeCell(q);
        SpreadStep(start, before, cells[..], p, q, order, sub);
        order' := order + sub;
      } else {
        assert order + [] == order;
      }
    }

    /** checkVictory: the game is won once every mine-free cell is revealed. */
    method CheckVictory()
      requires cells.Length == TotalCells
      modifies this`status
      ensures status == if |RevealedCells(cells[..])| == cells.Length - TotalMines then Won else old(status)
    {
      var revealedCells := |RevealedCells(cells[..])|;
      var totalCells := cells.Length;
      if revealedCells == totalCells - TotalMines {
        EndGame(true);
      }
    }

    /** endGame: detach the handlers; the model records the outcome instead. */
    method EndGame(victory: bool)
      modifies this`status
      ensures status == if victory then Won else Lost
    {
      status := if victory then Won else Lost;
    }

    /**
     * handleFlagAction. While the game is on, a flagged cell loses its flag;
     * another cell gets one if fewer than TotalMines flags are out.
     * Revealed cells are not excluded.
     */
    method ToggleFlag(p: Pos)
      requires Valid() && InGrid(p)
      modifies this`currentFlags, cells
      ensures Valid()
      ensures old(status) != InProgress ==>
        currentFlags == old(currentFlags) && cells[..] == old(cells[..])
      ensures old(status) == InProgress && old(cells[Index(p)]).flagged ==>
        currentFlags == old(currentFlags) - 1 &&
        cells[..] == old(cells[..])[Index(p) := old(cells[Index(p)]).(flagged := false)]
      ensures old(status) == InProgress && !old(cells[Index(p)]).flagged && old(currentFlags) < TotalMines ==>
        currentFlags == old(currentFlags) + 1 &&
        cells[..] == old(cells[..])[Index(p) := old(cells[Index(p)]).(flagged := true)]
      ensures old(status) == InProgress && !old(cells[Index(p)]).flagged && old(currentFlags) >= TotalMines ==>
        currentFlags == old(currentFlags) && cells[..] == old(cells[..])
    {
      if status != InProgress {
        return;
      }
      var i := Index(p);
      if cells[i].flagged {
        FlagKeeps(cells[..], i, false);
        cells[i] := cells[i].(flagged := false);
        currentFlags := currentFlags - 1;
      } else if currentFlags < TotalMines {
        FlagKeeps(cells[..], i, true);
        cells[i] := cells[i].(flagged := true);
        currentFlags := currentFlags + 1;
      }
    }
  }
}
