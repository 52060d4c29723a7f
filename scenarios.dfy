/** Worked positions. The general facts first: a move that completes the
    mover's line scores as a win for the mover, a position in play where
    such a move exists is worth that win, and a human position all of whose
    replies lose is lost. Then concrete boards. */
module Scenarios {
  import opened Board
  import opened Search

  /** The score of a finished game won by `p`. */
  function WinScore(p: Player): (s: int)
    ensures p == Ai ==> s == 10
    ensures p == Human ==> s == -10
  {
    if p == Ai then 10 else -10
  }

  /** A move that completes a line for `p`, on a board where the other
      player has none, scores as a win for `p`. */
  lemma CompletingMoveWins(b: Board, p: Player, i: Index)
    requires b[i] == Empty && !CheckWinner(b, Other(p))
    requires CheckWinner(b[i := p], p)
    ensures ChildScore(b, p, i) == WinScore(p)
  {
    PlaceKeepsOthersLines(b, i, p, Other(p));
  }

  /** A position in play where `p` can complete a line is worth a win for
      `p`, whatever else `p` could do. */
  lemma CanWinNow(b: Board, p: Player, i: Index)
    requires !IsTerminal(b) && b[i] == Empty
    requires CheckWinner(b[i := p], p)
    ensures Minimax(b, p).score == WinScore(p)
  {
    CompletingMoveWins(b, p, i);
    MinimaxChoosesBest(b, p, i);
  }

  /** A human reply at `i` after which the computer can complete a line at
      `r` scores +10. */
  lemma ReplyLoses(c: Board, i: Index, r: Index)
    requires c[i] == Empty && !IsTerminal(c[i := Human])
    requires c[i := Human][r] == Empty && CheckWinner(c[i := Human][r := Ai], Ai)
    ensures ChildScore(c, Human, i) == 10
  {
    CanWinNow(c[i := Human], Ai, r);
  }

  /** A human position in play all of whose replies score +10 is worth +10:
      the human cannot avoid the loss. */
  lemma HumanCannotEscape(c: Board)
    requires !IsTerminal(c)
    requires forall i: Index :: c[i] == Empty ==> ChildScore(c, Human, i) == 10
    ensures Minimax(c, Human).score == 10
  {
    MinimaxCopiesChild(c, Human);
  }

  /** A human mark on a free cell outside a computer line does not break
      that line: a cell the computer completes at `r` stays completing. */
  lemma ThreatSurvivesReply(c: Board, i: Index, r: Index)
    requires c[i] == Empty && i != r
    requires CheckWinner(c[r := Ai], Ai)
    ensures CheckWinner(c[i := Human][r := Ai], Ai)
  {
    var k :| 0 <= k < |WinPatterns| && Owns(c[r := Ai], WinPatterns[k], Ai);
    assert Owns(c[i := Human][r := Ai], WinPatterns[k], Ai);
  }

  /** A fork: with the human to move, two different free cells each complete
      a computer line, and no human reply completes a human line. Whatever
      the human does, the computer completes a line, so the position is
      worth +10. */
  lemma ForkWins(c: Board, x: Index, y: Index)
    requires !IsTerminal(c) && x != y && c[x] == Empty && c[y] == Empty
    requires CheckWinner(c[x := Ai], Ai) && CheckWinner(c[y := Ai], Ai)
    requires forall i: Index :: c[i] == Empty ==> !CheckWinner(c[i := Human], Human)
    ensures Minimax(c, Human).score == 10
  {
    forall i: Index | c[i] == Empty
      ensures ChildScore(c, Human, i) == 10
    {
      var r := if i == x then y else x;
      ThreatSurvivesReply(c, i, r);
      PlaceKeepsOthersLines(c, i, Human, Ai);
      assert c[i := Human][r] == Empty;
      ReplyLoses(c, i, r);
    }
    HumanCannotEscape(c);
  }

  /** A computer position in play where cell `i` wins and every free cell
      after `i` scores less: the search returns `i` with score +10, however
      many earlier cells also win. */
  lemma LastWinnerChosen(b: Board, i: Index)
    requires !IsTerminal(b) && b[i] == Empty && ChildScore(b, Ai, i) == 10
    requires forall k: Index :: i < k && b[k] == Empty ==> ChildScore(b, Ai, k) < 10
    ensures Minimax(b, Ai) == Move(Some(i), 10)
  {
    MinimaxChoosesBest(b, Ai, i);
    MinimaxCopiesChild(b, Ai);
  }

  /** A computer position in play where cell `j` forces a win: no free
      cell before `j` is returned. */
  lemma NoEarlierCellChosen(b: Board, j: Index)
    requires !IsTerminal(b) && b[j] == Empty && ChildScore(b, Ai, j) == 10
    ensures Minimax(b, Ai).index.Some? && Minimax(b, Ai).index.value >= j
    ensures Minimax(b, Ai).score == 10
  {
    MinimaxChoosesBest(b, Ai, j);
  }

  /** A legal position, with the computer to move: the human
      holds 4, 5, 7 and 8, the computer 0, 1 and 6, and cells 2 and 3 are
      free. Each of them completes a computer line. */
  const TwoWins: Board := [Ai, Ai, Empty, Empty, Human, Human, Ai, Human, Human]

  /** In TwoWins both cell 2 and cell 3 win at once; since ties go to the
      last candidate, the search returns cell 3, not cell 2. */
  lemma TwoWinsPicksLast()
    ensures Minimax(TwoWins, Ai) == Move(Some(3), 10)
  {
    assert forall k: Index :: 3 < k ==> TwoWins[k] != Empty;
    assert TwoWins[2] == Empty && !IsTerminal(TwoWins);
    CompletingMoveWins(TwoWins, Ai, 3);
    LastWinnerChosen(TwoWins, 3);
  }

  /** The computer holds 0 and 1, the human 4, the computer to move. Cell 2
      wins at once. */
  const TopPair: Board := [Ai, Ai, Empty, Empty, Human, Empty, Empty, Empty, Empty]

  /** TopPair after the computer takes 3: it threatens 2 (top row) and 6
      (left column) at once. */
  const DoubleThreat: Board := [Ai, Ai, Empty, Ai, Human, Empty, Empty, Empty, Empty]

  /** DoubleThreat is in play. */
  lemma DoubleThreatInPlay()
    ensures !IsTerminal(DoubleThreat)
  {
    assert DoubleThreat[2] == Empty;
  }

  /** No human reply in DoubleThreat completes a human line. */
  lemma DoubleThreatRepliesSafe()
    ensures forall i: Index :: DoubleThreat[i] == Empty ==> !CheckWinner(DoubleThreat[i := Human], Human)
  {
    assert forall i: Index :: DoubleThreat[i] == Empty ==> i in {2, 5, 6, 7, 8};
  }

  /** Every human reply in DoubleThreat leaves the computer a completing move. */
  lemma DoubleThreatWins()
    ensures Minimax(DoubleThreat, Human).score == 10
  {
    DoubleThreatInPlay();
    DoubleThreatRepliesSafe();
    ForkWins(DoubleThreat, 2, 6);
  }

  /** In TopPair cell 3 also forces a win, so the search does not return the
      immediate win at cell 2: a first-best tie-break would return cell 2. */
  lemma TopPairSkipsImmediateWin()
    ensures Minimax(TopPair, Ai).score == 10
    ensures Minimax(TopPair, Ai).index != Some(2)
  {
    assert TopPair[2] == Empty && !IsTerminal(TopPair);
    assert TopPair[3 := Ai] == DoubleThreat;
    DoubleThreatWins();
    NoEarlierCellChosen(TopPair, 3);
  }

  /** A full board with no line for either side. */
  const FullDraw: Board := [Human, Ai, Human, Human, Ai, Ai, Ai, Human, Human]

  /** FullDraw is finished, nobody has won, and it scores 0. */
  lemma FullDrawScoresZero()
    ensures IsTerminal(FullDraw) && !CheckWinner(FullDraw, Human) && !CheckWinner(FullDraw, Ai)
    ensures Minimax(FullDraw, Ai) == Move(None, 0) && Minimax(FullDraw, Human) == Move(None, 0)
  {
    assert IsFull(FullDraw);
  }
}
