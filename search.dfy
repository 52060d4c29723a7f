/** The computer's move selector: an exhaustive minimax search over every
    continuation of the board, scored from the computer's side (+10 when it
    has won, -10 when the human has won, 0 for a draw), with no weighting by
    depth. */
module Search {
  import opened Board

  datatype Option<T> = None | Some(value: T)

  /** A search result: the cell chosen (absent at a finished board) and the
      score of the position. */
  datatype Move = Move(index: Option<Index>, score: int)

  /** Score `x` is at least as good as `y` for the player to move: the
      computer maximises, the human minimises. */
  predicate NoWorse(p: Player, x: int, y: int)
  {
    if p == Ai then x >= y else x <= y
  }

  /** Score `x` is strictly better than `y` for the player to move. */
  predicate Better(p: Player, x: int, y: int)
  {
    if p == Ai then x > y else x < y
  }

  /** Candidate `k` of `ms` is what the source's reduction returns: no
      candidate is better for `p`, and every later one is strictly worse. */
  ghost predicate LastBest(p: Player, ms: seq<Move>, k: int)
  {
    0 <= k < |ms| &&
    (forall j :: 0 <= j < |ms| ==> NoWorse(p, ms[k].score, ms[j].score)) &&
    (forall j :: k < j < |ms| ==> Better(p, ms[k].score, ms[j].score))
  }

  /** One step of the reduction: the candidate kept for the prefix stays
      chosen when it beats the new last candidate, and otherwise the new
      last candidate is chosen. */
  lemma LastBestStep(p: Player, ms: seq<Move>, k: int)
    requires |ms| > 1 && LastBest(p, ms[..|ms| - 1], k)
    ensures Better(p, ms[k].score, ms[|ms| - 1].score) ==> LastBest(p, ms, k)
    ensures !Better(p, ms[k].score, ms[|ms| - 1].score) ==> LastBest(p, ms, |ms| - 1)
  {
    var front := ms[..|ms| - 1];
    assert forall j :: 0 <= j < |front| ==> front[j] == ms[j];
  }

  /** The left-to-right reduction over the candidate moves: the accumulator
      is kept only when it is strictly better than the next candidate, so of
      several equally good candidates the last one is returned. */
  function Reduce(p: Player, ms: seq<Move>): (r: Move)
    requires |ms| > 0
    ensures exists k :: LastBest(p, ms, k) && r == ms[k]
    decreases |ms|
  {
    if |ms| == 1 then
      assert LastBest(p, ms, 0);
      ms[0]
    else
      var front := ms[..|ms| - 1];
      var acc := Reduce(p, front);
      var next := ms[|ms| - 1];
      ghost var k :| LastBest(p, front, k) && acc == front[k];
      LastBestStep(p, ms, k);
      assert acc == ms[k];
      if Better(p, acc.score, next.score) then acc else next
  }

  /** The value of the position for player `p` to move, and the cell `p`
      should take. Finished positions are recognised in a fixed order: a
      human line first, then a computer line, then a full board. */
  function Minimax(b: Board, p: Player): (m: Move)
    ensures m.score == -10 || m.score == 0 || m.score == 10
    ensures m.index.Some? <==> !IsTerminal(b)
    ensures m.index.Some? ==> b[m.index.value] == Empty
    decreases CountEmpty(b), 2
  {
    var empty := EmptyCells(b);
    if CheckWinner(b, Human) then Move(None, -10)
    else if CheckWinner(b, Ai) then Move(None, 10)
    else if |empty| == 0 then Move(None, 0)
    else
      var ms := Candidates(b, p, empty);
      var r := Reduce(p, ms);
      ghost var k :| LastBest(p, ms, k) && r == ms[k];
      r
  }

  /** One candidate per free cell of `es`, in order: the cell and the score
      of the position after `p` takes it, with the other player to move. */
  function Candidates(b: Board, p: Player, es: seq<Index>): (ms: seq<Move>)
    requires forall k :: 0 <= k < |es| ==> b[es[k]] == Empty
    decreases CountEmpty(b), 1
  {
    seq(|es|, k requires 0 <= k < |es| => Move(Some(es[k]), ChildScore(b, p, es[k])))
  }

  /** The candidates are one move per listed cell, in order, each naming its
      cell and scored -10, 0 or 10. */
  lemma CandidatesShape(b: Board, p: Player, es: seq<Index>)
    requires forall k :: 0 <= k < |es| ==> b[es[k]] == Empty
    ensures var ms := Candidates(b, p, es);
            && |ms| == |es|
            && (forall k :: 0 <= k < |ms| ==> ms[k].index == Some(es[k]))
            && (forall k :: 0 <= k < |ms| ==> ms[k].score in {-10, 0, 10})
  {
  }

  /** The score of the position after `p` marks the free cell `i`, with the
      other player to move. */
  function ChildScore(b: Board, p: Player, i: Index): (s: int)
    requires b[i] == Empty
    ensures s == -10 || s == 0 || s == 10
    decreases CountEmpty(b), 0
  {
    PlaceDecreasesEmpty(b, i, p);
    Minimax(b[i := p], Other(p)).score
  }

  /** The leaf scores, checked in the source's order. */
  lemma MinimaxLeaves(b: Board, p: Player)
    ensures CheckWinner(b, Human) ==> Minimax(b, p).score == -10
    ensures !CheckWinner(b, Human) && CheckWinner(b, Ai) ==> Minimax(b, p).score == 10
    ensures !CheckWinner(b, Human) && !CheckWinner(b, Ai) && IsFull(b) ==> Minimax(b, p).score == 0
  {
  }

  /** At a position still in play, Minimax reduces over the candidates of
      the free cells. */
  lemma MinimaxInPlay(b: Board, p: Player)
    requires !IsTerminal(b)
    ensures Minimax(b, p) == Reduce(p, Candidates(b, p, EmptyCells(b)))
  {
  }

  /** Over candidates for ascending cells `es`, Reduce returns one of them;
      no candidate is better for `p` and every candidate for a later cell is
      worse. */
  lemma ReduceOrdered(p: Player, ms: seq<Move>, es: seq<Index>, j: nat)
    requires |ms| == |es| && j < |es|
    requires forall k :: 0 <= k < |es| ==> ms[k].index == Some(es[k])
    requires forall k, l :: 0 <= k < l < |es| ==> es[k] < es[l]
    ensures var r := Reduce(p, ms);
            && r in ms
            && r.index.Some?
            && NoWorse(p, r.score, ms[j].score)
            && (es[j] > r.index.value ==> Better(p, r.score, ms[j].score))
  {
    var r := Reduce(p, ms);
    var k :| LastBest(p, ms, k) && r == ms[k];
    if es[j] > es[k] {
      assert j > k;
    }
  }

  /** The candidate Reduce picks from the candidates of the free cells `es`
      names a cell, and carries that cell's own score. */
  lemma ReduceCandidatesChosen(b: Board, p: Player, es: seq<Index>)
    requires forall k :: 0 <= k < |es| ==> b[es[k]] == Empty
    requires |es| > 0
    ensures var r := Reduce(p, Candidates(b, p, es));
            && r.index.Some? && b[r.index.value] == Empty
            && r.score == ChildScore(b, p, r.index.value)
  {
    var ms := Candidates(b, p, es);
    var r := Reduce(p, ms);
    var k :| LastBest(p, ms, k) && r == ms[k];
    assert r.index.value == es[k];
  }

  /** Of the candidates of the free cells `es` (ascending), no cell's score
      is better for `p` than the one Reduce picks, and every cell after the
      picked one is strictly worse. */
  lemma ReduceCandidatesBest(b: Board, p: Player, es: seq<Index>, j: nat)
    requires forall k :: 0 <= k < |es| ==> b[es[k]] == Empty
    requires forall k, l :: 0 <= k < l < |es| ==> es[k] < es[l]
    requires j < |es|
    ensures var r := Reduce(p, Candidates(b, p, es));
            && r.index.Some?
            && NoWorse(p, r.score, ChildScore(b, p, es[j]))
            && (es[j] > r.index.value ==> Better(p, r.score, ChildScore(b, p, es[j])))
  {
    ReduceOrdered(p, Candidates(b, p, es), es, j);
  }

  /** At a position still in play the returned score is the chosen cell's
      child score, copied unchanged (no weighting by depth). */
  lemma MinimaxCopiesChild(b: Board, p: Player)
    requires !IsTerminal(b)
    ensures Minimax(b, p).index.Some?
    ensures var c := Minimax(b, p).index.value;
            Minimax(b, p).score == ChildScore(b, p, c)
  {
    MinimaxInPlay(b, p);
    ReduceCandidatesChosen(b, p, EmptyCells(b));
  }

  /** At a position still in play the returned score is at least as good for
      `p` as that of every free cell, and strictly better than that of every
      free cell after the chosen one: ties go to the last cell. */
  lemma MinimaxChoosesBest(b: Board, p: Player, i: Index)
    requires !IsTerminal(b) && b[i] == Empty
    ensures Minimax(b, p).index.Some?
    ensures NoWorse(p, Minimax(b, p).score, ChildScore(b, p, i))
    ensures i > Minimax(b, p).index.value ==>
              Better(p, Minimax(b, p).score, ChildScore(b, p, i))
  {
    var es := EmptyCells(b);
    EmptyCellsComplete(b, i);
    var j :| 0 <= j < |es| && es[j] == i;
    MinimaxInPlay(b, p);
    ReduceCandidatesBest(b, p, es, j);
  }

  /** Extending a prefix of `s` by one element. */
  lemma PrefixStep<T>(s: seq<T>, k: nat)
    requires k < |s|
    ensures s[..k + 1] == s[..k] + [s[k]]
  {
  }

  /** The in-place search: the board is left as it was and the result is
      Minimax's. */
  method Run(a: array<Cell>, p: Player) returns (m: Move)
    requires a.Length == 9
    modifies a
    ensures a[..] == old(a[..])
    ensures m == Minimax(old(a[..]), p)
    decreases CountEmpty(a[..]), 2
  {
    var b: Board := a[..];
    var empty := EmptyCells(b);
    if CheckWinner(b, Human) {
      return Move(None, -10);
    }
    if CheckWinner(b, Ai) {
      return Move(None, 10);
    }
    if |empty| == 0 {
      return Move(None, 0);
    }
    MinimaxInPlay(b, p);
    var moves := Score(a, p, empty);
    m := Reduce(p, moves);
  }

  /** The candidate loop: score every free cell of `empty` in turn, leaving
      the board as it was. */
  method Score(a: array<Cell>, p: Player, empty: seq<Index>) returns (moves: seq<Move>)
    requires a.Length == 9
    requires forall k :: 0 <= k < |empty| ==> a[empty[k]] == Empty
    modifies a
    ensures a[..] == old(a[..])
    ensures moves == Candidates(old(a[..]), p, empty)
    decreases CountEmpty(a[..]), 1
  {
    ghost var b: Board := a[..];
    ghost var cs := Candidates(b, p, empty);
    moves := [];
    var k := 0;
    while k < |empty|
      invariant 0 <= k <= |empty|
      invariant a[..] == b
      invariant moves == cs[..k]
    {
      var i := empty[k];
      var score := Try(a, p, i);
      PrefixStep(cs, k);
      moves := moves + [Move(Some(i), score)];
      k := k + 1;
    }
    assert moves == cs;
  }

  /** One step of the search: put `p`'s mark on the free cell `i`, score the
      position for the other player, and clear the cell again. */
  method Try(a: array<Cell>, p: Player, i: Index) returns (score: int)
    requires a.Length == 9 && a[i] == Empty
    modifies a
    ensures a[..] == old(a[..])
    ensures score == ChildScore(old(a[..]), p, i)
    decreases CountEmpty(a[..]), 0
  {
    ghost var b: Board := a[..];
    a[i] := p;
    assert a[..] == b[i := p];
    PlaceDecreasesEmpty(b, i, p);
    var child := Run(a, Other(p));
    score := child.score;
    a[i] := Empty;
    assert a[..] == b;
  }
}
