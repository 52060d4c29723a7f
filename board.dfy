/** The 3x3 board of the game: its cells, the eight winning lines and the
    queries the rest of the game asks of a board (who owns a line, which
    cells are still free, whether the game is over). */
module Board {

  /** One cell of the board: free, marked "O" by the human or "X" by the computer. */
  datatype Cell = Empty | Human | Ai

  /** A mark a player puts down; the free marker is not one. */
  type Player = c: Cell | c != Empty witness Human

  /** Cell positions 0..8 in row-major order. */
  type Index = i: int | 0 <= i < 9

  /** The game's board: nine cells in row-major order. */
  type Board = b: seq<Cell> | |b| == 9 witness [Empty, Empty, Empty, Empty, Empty, Empty, Empty, Empty, Empty]

  /** The board at the start of a game: every cell free. */
  const EmptyBoard: Board := seq(9, _ => Empty)

  /** The player who moves after `p`. */
  function Other(p: Player): (q: Player)
    ensures q != p
  {
    if p == Ai then Human else Ai
  }

  /** The eight winning lines: three rows, three columns, two diagonals. */
  const WinPatterns: seq<(Index, Index, Index)> :=
    [(0, 1, 2), (3, 4, 5), (6, 7, 8),
     (0, 3, 6), (1, 4, 7), (2, 5, 8),
     (0, 4, 8), (2, 4, 6)]

  /** All three cells of `line` hold `p`. */
  predicate Owns(b: Board, line: (Index, Index, Index), p: Cell)
  {
    b[line.0] == p && b[line.1] == p && b[line.2] == p
  }

  /** Owning a line is holding every cell the line lists. */
  lemma OwnsEveryCell(b: Board, line: (Index, Index, Index), p: Cell)
    ensures Owns(b, line, p) <==> forall i :: i in [line.0, line.1, line.2] ==> b[i] == p
  {
  }

  /** Some winning pattern from position `k` of WinPatterns on is owned by
      `p`, scanning the patterns in order. */
  function AnyOwnedFrom(b: Board, k: nat, p: Cell): (r: bool)
    requires k <= |WinPatterns|
    ensures r <==> exists j :: k <= j < |WinPatterns| && Owns(b, WinPatterns[j], p)
    decreases |WinPatterns| - k
  {
    if k == |WinPatterns| then false
    else Owns(b, WinPatterns[k], p) || AnyOwnedFrom(b, k + 1, p)
  }

  /** `p` owns a winning line. */
  function CheckWinner(b: Board, p: Cell): (r: bool)
    ensures r <==> exists k :: 0 <= k < |WinPatterns| && Owns(b, WinPatterns[k], p)
  {
    AnyOwnedFrom(b, 0, p)
  }

  /** Row `row` of the 3x3 grid is filled by `p`; cell (row, col) is at 3 * row + col. */
  ghost predicate RowFilled(b: Board, p: Cell, row: int)
    requires 0 <= row < 3
  {
    b[3 * row] == p && b[3 * row + 1] == p && b[3 * row + 2] == p
  }

  /** Column `col` of the 3x3 grid is filled by `p`. */
  ghost predicate ColumnFilled(b: Board, p: Cell, col: int)
    requires 0 <= col < 3
  {
    b[col] == p && b[col + 3] == p && b[col + 6] == p
  }

  /** Independent description of a win: a full row, a full column or a
      full diagonal of the 3x3 grid. */
  ghost predicate CompletesGridLine(b: Board, p: Cell)
  {
    (exists row :: 0 <= row < 3 && RowFilled(b, p, row)) ||
    (exists col :: 0 <= col < 3 && ColumnFilled(b, p, col)) ||
    (b[0] == p && b[4] == p && b[8] == p) ||
    (b[2] == p && b[4] == p && b[6] == p)
  }

  /** A winning pattern that `p` fills is a full row, column or diagonal. */
  lemma PatternIsGridLine(b: Board, p: Cell, k: nat)
    requires k < |WinPatterns|
    requires Owns(b, WinPatterns[k], p)
    ensures CompletesGridLine(b, p)
  {
    if k < 3 {
      assert RowFilled(b, p, k);
    } else if k < 6 {
      assert ColumnFilled(b, p, k - 3);
    }
  }

  /** A winning pattern filled by `p` is a win for `p`. */
  lemma PatternWins(b: Board, p: Cell, k: nat)
    requires k < |WinPatterns|
    requires Owns(b, WinPatterns[k], p)
    ensures CheckWinner(b, p)
  {
  }

  /** A full row, column or diagonal is one of the winning patterns. */
  lemma GridLineIsPattern(b: Board, p: Cell)
    requires CompletesGridLine(b, p)
    ensures CheckWinner(b, p)
  {
    if b[0] == p && b[4] == p && b[8] == p {
      PatternWins(b, p, 6);
    } else if b[2] == p && b[4] == p && b[6] == p {
      PatternWins(b, p, 7);
    } else if row :| 0 <= row < 3 && RowFilled(b, p, row) {
      PatternWins(b, p, row);
    } else {
      var col :| 0 <= col < 3 && ColumnFilled(b, p, col);
      PatternWins(b, p, col + 3);
    }
  }

  /** The eight fixed patterns are exactly the rows, columns and diagonals. */
  lemma CheckWinnerIsGridLine(b: Board, p: Cell)
    ensures CheckWinner(b, p) <==> CompletesGridLine(b, p)
  {
    if CheckWinner(b, p) {
      var k :| 0 <= k < |WinPatterns| && Owns(b, WinPatterns[k], p);
      PatternIsGridLine(b, p, k);
    }
    if CompletesGridLine(b, p) {
      GridLineIsPattern(b, p);
    }
  }

  /** No cell is free. */
  function IsFull(b: Board): (r: bool)
    ensures r <==> Empty !in b
  {
    forall i :: 0 <= i < |b| ==> b[i] != Empty
  }

  /** The board is full exactly when the free-cell count, the search's
      termination measure, has reached zero. */
  lemma FullIsNoneFree(b: Board)
    ensures IsFull(b) <==> CountEmpty(b) == 0
  {
  }

  /** The game has ended: somebody has a line or the board is full. */
  predicate IsTerminal(b: Board)
  {
    CheckWinner(b, Human) || CheckWinner(b, Ai) || IsFull(b)
  }

  /** The game has ended exactly when a side fills a row, column or
      diagonal of the grid, or no cell is free. */
  lemma TerminalIsGameEnd(b: Board)
    ensures IsTerminal(b) <==>
              CompletesGridLine(b, Human) || CompletesGridLine(b, Ai) || CountEmpty(b) == 0
  {
    CheckWinnerIsGridLine(b, Human);
    CheckWinnerIsGridLine(b, Ai);
    FullIsNoneFree(b);
  }

  /** Number of free cells; it drops by one with every mark put down. */
  function CountEmpty(b: Board): nat
  {
    multiset(b)[Empty]
  }

  /** The positions from `start` on that are free, in ascending order. */
  function EmptyCellsFrom(b: Board, start: nat): (r: seq<Index>)
    requires start <= 9
    ensures forall j :: 0 <= j < |r| ==> start <= r[j] && b[r[j]] == Empty
    ensures forall j, k :: 0 <= j < k < |r| ==> r[j] < r[k]
    decreases 9 - start
  {
    if start == 9 then []
    else if b[start] == Empty then [start as Index] + EmptyCellsFrom(b, start + 1)
    else EmptyCellsFrom(b, start + 1)
  }

  /** Every free position from `start` on is listed. */
  lemma {:induction false} EmptyCellsFromComplete(b: Board, start: nat, i: Index)
    requires start <= i && b[i] == Empty
    ensures i in EmptyCellsFrom(b, start)
    decreases 9 - start
  {
    if start < i {
      EmptyCellsFromComplete(b, start + 1, i);
    }
  }

  /** The free positions of the board, in ascending order. */
  function EmptyCells(b: Board): (r: seq<Index>)
    ensures forall j :: 0 <= j < |r| ==> b[r[j]] == Empty
    ensures forall j, k :: 0 <= j < k < |r| ==> r[j] < r[k]
    ensures r == [] <==> IsFull(b)
  {
    var r := EmptyCellsFrom(b, 0);
    assert r == [] ==> IsFull(b) by {
      forall i: Index | r == [] && b[i] == Empty ensures false {
        EmptyCellsFromComplete(b, 0, i);
      }
    }
    r
  }

  /** Every free position is listed by EmptyCells. */
  lemma EmptyCellsComplete(b: Board, i: Index)
    requires b[i] == Empty
    ensures i in EmptyCells(b)
  {
    EmptyCellsFromComplete(b, 0, i);
  }

  /** A new game is in play: nobody has a line and every cell is free. */
  lemma EmptyBoardInPlay()
    ensures !CheckWinner(EmptyBoard, Human) && !CheckWinner(EmptyBoard, Ai)
    ensures !IsTerminal(EmptyBoard)
  {
    assert EmptyBoard[0] == Empty;
  }

  /** Marking a free cell leaves one free cell fewer. */
  lemma PlaceDecreasesEmpty(b: Board, i: Index, p: Player)
    requires b[i] == Empty
    ensures CountEmpty(b[i := p]) == CountEmpty(b) - 1
  {
  }

  /** Marking a cell for `p` cannot give another player a line. */
  lemma PlaceKeepsOthersLines(b: Board, i: Index, p: Player, q: Cell)
    requires q != p
    ensures CheckWinner(b[i := p], q) ==> CheckWinner(b, q)
  {
    var b' := b[i := p];
    if CheckWinner(b', q) {
      var k :| 0 <= k < |WinPatterns| && Owns(b', WinPatterns[k], q);
      assert Owns(b, WinPatterns[k], q);
    }
  }

  /** After `p` marks a free cell of a board where the game was still on, the
      game is over exactly when `p` now has a line or no cell is free. */
  lemma PlaceTerminal(b: Board, i: Index, p: Player)
    requires !IsTerminal(b) && b[i] == Empty
    ensures IsTerminal(b[i := p]) <==> CheckWinner(b[i := p], p) || IsFull(b[i := p])
  {
    PlaceKeepsOthersLines(b, i, p, Other(p));
  }
}
