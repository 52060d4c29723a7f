/** The session state of one page: the board, whether the game is over and
    whether the human may click. Clicks, the computer's reply and the reset
    buttons change it in place. */
module Session {
  import opened Board
  import opened Search

  class Game {
    var board: array<Cell>
    var gameOver: bool
    /** True while the human may click a cell. */
    var humanTurn: bool

    /** The state between two clicks: nine cells, the game is over exactly
        when the board is finished, and while it is not the human may click. */
    ghost predicate Valid()
      reads this, board
    {
      board.Length == 9 &&
      (gameOver <==> IsTerminal(board[..])) &&
      (!gameOver ==> humanTurn)
    }

    /** The state when the page loads. */
    constructor ()
      ensures Valid() && fresh(board)
      ensures board[..] == EmptyBoard && !gameOver && humanTurn
    {
      board := new Cell[9](_ => Empty);
      gameOver := false;
      humanTurn := true;
      new;
      assert board[..] == EmptyBoard;
      EmptyBoardInPlay();
    }

    /** Put `player`'s mark on cell `index` and end the game when `player`
        now has a line or no cell is free. */
    method MakeMove(index: Index, player: Player)
      requires board.Length == 9
      modifies board, this`gameOver, this`humanTurn
      ensures board[..] == old(board[..])[index := player]
      ensures var over := CheckWinner(board[..], player) || IsFull(board[..]);
              gameOver == (old(gameOver) || over) && humanTurn == (old(humanTurn) && !over)
      ensures old(!IsTerminal(board[..]) && board[index] == Empty) ==>
                (IsTerminal(board[..]) <==> CheckWinner(board[..], player) || IsFull(board[..]))
    {
      ghost var before: Board := board[..];
      board[index] := player;
      assert board[..] == before[index := player];
      if !IsTerminal(before) && before[index] == Empty {
        PlaceTerminal(before, index, player);
      }
      if CheckWinner(board[..], player) {
        EndGame();
      } else if IsFull(board[..]) {
        EndGame();
      }
    }

    /** Mark the game as over and stop accepting clicks. */
    method EndGame()
      modifies this`gameOver, this`humanTurn
      ensures gameOver && !humanTurn
    {
      gameOver := true;
      humanTurn := false;
    }

    /** A click on cell `index`. It is ignored unless the human may click,
        the cell is free and the game is not over; otherwise it is played. */
    method Click(index: Index) returns (accepted: bool)
      requires Valid()
      modifies board, this`gameOver, this`humanTurn
      ensures Valid()
      ensures accepted == (old(humanTurn) && old(board[index]) == Empty && !old(gameOver))
      ensures !accepted ==>
                board[..] == old(board[..]) && gameOver == old(gameOver) && humanTurn == old(humanTurn)
      ensures accepted && IsTerminal(old(board[..])[index := Human]) ==>
                board[..] == old(board[..])[index := Human] && gameOver && !humanTurn
      ensures accepted && !IsTerminal(old(board[..])[index := Human]) ==>
                var afterHuman := old(board[..])[index := Human];
                board[..] == afterHuman[Minimax(afterHuman, Ai).index.value := Ai] && humanTurn
    {
      if !humanTurn || board[index] != Empty || gameOver {
        return false;
      }
      Play(index);
      accepted := true;
    }

    /** An accepted click: the human's mark goes down and, if the game goes
        on, the computer answers with the cell Minimax picks for it. The
        flag that lets the human click is set again after the computer's
        move even when that move ends the game, so after a computer win
        both flags are true. (The computer never fills the board: the
        human, moving first, makes the first, third, fifth, seventh and
        ninth marks.) */
    method Play(index: Index)
      requires Valid() && !gameOver && board[index] == Empty
      modifies board, this`gameOver, this`humanTurn
      ensures Valid()
      ensures IsTerminal(old(board[..])[index := Human]) ==>
                board[..] == old(board[..])[index := Human] && gameOver && !humanTurn
      ensures !IsTerminal(old(board[..])[index := Human]) ==>
                var afterHuman := old(board[..])[index := Human];
                board[..] == afterHuman[Minimax(afterHuman, Ai).index.value := Ai] && humanTurn
    {
      MakeMove(index, Human);
      if !gameOver {
        humanTurn := false;
        AiReply();
      }
    }

    /** The computer's answer to a human move: search the board in place,
        mark the cell the search returns, and let the human click again. */
    method AiReply()
      requires board.Length == 9 && !IsTerminal(board[..])
      modifies board, this`gameOver, this`humanTurn
      ensures var reply := Minimax(old(board[..]), Ai).index.value;
              board[..] == old(board[..])[reply := Ai]
      ensures gameOver == (old(gameOver) || CheckWinner(board[..], Ai) || IsFull(board[..]))
      ensures gameOver == (old(gameOver) || IsTerminal(board[..]))
      ensures humanTurn
    {
      var best := Run(board, Ai);
      MakeMove(best.index.value, Ai);
      humanTurn := true;
    }

    /** The "new game" and "reset" buttons: a fresh, all-free board, the
        game not over and the human to click. */
    method Reset()
      modifies this
      ensures Valid() && fresh(board)
      ensures board[..] == EmptyBoard && !gameOver && humanTurn
    {
      board := new Cell[9](_ => Empty);
      gameOver := false;
      humanTurn := true;
      assert board[..] == EmptyBoard;
      EmptyBoardInPlay();
    }
  }
}
