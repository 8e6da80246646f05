/**
 * The computer opponent: an exhaustive minimax search in which O maximizes
 * and X minimizes, with depth-adjusted terminal scores, and the choice of
 * the best first move for O with ties going to the lowest cell index.
 */
module Search {
  import opened Wrappers
  import opened Board
  import opened Evaluator

  /** The mark placed at a node: O on maximizing plies, X on minimizing ones. */
  function Mover(maximizing: bool): Player {
    if maximizing then O else X
  }

  /** `minimax(board, depth, isMaximizing)`. A finished board scores
      `10 - depth` for an O win, `-10 + depth` for an X win and 0 for a
      draw; an unfinished one takes the maximum (O to move) or minimum
      (X to move) of its children's scores. */
  function Minimax(b: Board, depth: nat, maximizing: bool): (r: int)
    ensures CheckWinner(b) == Won(O) ==> r == 10 - depth
    ensures CheckWinner(b) == Won(X) ==> r == -10 + depth
    ensures CheckWinner(b) == Draw ==> r == 0
    ensures CheckWinner(b).InProgress? && maximizing ==>
      forall i: Index {:trigger Minimax(Place(b, i, O), depth + 1, false)} ::
        b[i] == Empty ==> Minimax(Place(b, i, O), depth + 1, false) <= r
    ensures CheckWinner(b).InProgress? && !maximizing ==>
      forall i: Index {:trigger Minimax(Place(b, i, X), depth + 1, true)} ::
        b[i] == Empty ==> r <= Minimax(Place(b, i, X), depth + 1, true)
    ensures depth + EmptyCount(b) <= 10 ==> -10 + depth <= r <= 10 - depth
    decreases EmptyCount(b), 1
  {
    match CheckWinner(b)
    case Won(X) => -10 + depth
    case Won(O) => 10 - depth
    case Draw => 0
    case InProgress =>
      match BestFrom(b, depth, maximizing, 0, None)
      case Some(s) => s
      case None => assert false; 0
  }

  /** The loop over the children of an unfinished node, as a left fold: `acc`
      is the best score so far, None standing for the starting infinity. */
  function BestFrom(b: Board, depth: nat, maximizing: bool, i: nat, acc: Option<int>): (r: Option<int>)
    requires i <= 9
    ensures r.None? <==> acc.None? && forall j :: i <= j < 9 ==> b[j] != Empty
    ensures r.Some? && acc.Some? ==>
      if maximizing then acc.value <= r.value else r.value <= acc.value
    ensures r.Some? && maximizing ==>
      forall j: Index {:trigger Minimax(Place(b, j, O), depth + 1, false)} ::
        i <= j && b[j] == Empty ==> Minimax(Place(b, j, O), depth + 1, false) <= r.value
    ensures r.Some? && !maximizing ==>
      forall j: Index {:trigger Minimax(Place(b, j, X), depth + 1, true)} ::
        i <= j && b[j] == Empty ==> r.value <= Minimax(Place(b, j, X), depth + 1, true)
    ensures r.Some? && acc.Some? && depth + EmptyCount(b) <= 10 && -9 + depth <= acc.value <= 9 - depth ==>
      -9 + depth <= r.value <= 9 - depth
    ensures r.Some? && acc.None? && depth + EmptyCount(b) <= 10 ==> -9 + depth <= r.value <= 9 - depth
    decreases EmptyCount(b), 0, 9 - i
  {
    if i == 9 then acc
    else if b[i] != Empty then BestFrom(b, depth, maximizing, i + 1, acc)
    else
      var s := Minimax(Place(b, i, Mover(maximizing)), depth + 1, !maximizing);
      BestFrom(b, depth, maximizing, i + 1, Some(Combine(maximizing, acc, s)))
  }

  /** One step of the loop: `Math.max`/`Math.min` of the new score and the
      best so far, None standing for the starting infinity. */
  function Combine(maximizing: bool, acc: Option<int>, s: int): (r: int)
    ensures r == s || (acc.Some? && r == acc.value)
    ensures maximizing ==> s <= r && (acc.Some? ==> acc.value <= r)
    ensures !maximizing ==> r <= s && (acc.Some? ==> r <= acc.value)
  {
    match acc
    case None => s
    case Some(t) => if maximizing then (if s > t then s else t) else (if s < t then s else t)
  }

  /** The score of child `j` of a node. */
  function ChildScore(b: Board, depth: nat, maximizing: bool, j: Index): int
    requires b[j] == Empty
  {
    Minimax(Place(b, j, Mover(maximizing)), depth + 1, !maximizing)
  }

  /** The fold returns either its starting accumulator or the score of one
      of the children it visits. */
  lemma {:induction false} BestFromAttained(b: Board, depth: nat, maximizing: bool, i: nat, acc: Option<int>)
    requires i <= 9
    ensures var r := BestFrom(b, depth, maximizing, i, acc);
      r.Some? ==> r == acc || exists j: Index :: i <= j && b[j] == Empty && r.value == ChildScore(b, depth, maximizing, j)
    decreases 9 - i
  {
    var r := BestFrom(b, depth, maximizing, i, acc);
    if i < 9 && r.Some? {
      if b[i] != Empty {
        assert r == BestFrom(b, depth, maximizing, i + 1, acc);
        BestFromAttained(b, depth, maximizing, i + 1, acc);
      } else {
        var s := ChildScore(b, depth, maximizing, i);
        var acc' := Combine(maximizing, acc, s);
        assert r == BestFrom(b, depth, maximizing, i + 1, Some(acc'));
        BestFromAttained(b, depth, maximizing, i + 1, Some(acc'));
        if r == Some(acc') && acc' == s {
          assert r.value == ChildScore(b, depth, maximizing, i);
        }
      }
    }
  }

  /** The score of an unfinished node is the score of one of its children:
      together with the bound in the contract of Minimax, it is the maximum
      (O to move) or the minimum (X to move) over the children. */
  lemma MinimaxAttained(b: Board, depth: nat, maximizing: bool)
    requires CheckWinner(b).InProgress?
    ensures exists j: Index :: b[j] == Empty && Minimax(b, depth, maximizing) == ChildScore(b, depth, maximizing, j)
  {
    BestFromAttained(b, depth, maximizing, 0, None);
  }

  /** The score `getBestMove` gives a tentative O move into empty cell `i`:
      the search below it starts at depth 0 with X to move. */
  function RootScore(b: Board, i: Index): (r: int)
    requires b[i] == Empty
    ensures -10 <= r <= 10
  {
    Minimax(Place(b, i, O), 0, false)
  }

  /** `m` is the move `getBestMove` must return: an empty cell whose score is
      maximal among the empty cells, and strictly greater than the score of
      every empty cell before it. */
  ghost predicate IsBestMove(b: Board, m: Index) {
    && b[m] == Empty
    && (forall j: Index :: b[j] == Empty ==> RootScore(b, j) <= RootScore(b, m))
    && (forall j: Index :: j < m && b[j] == Empty ==> RootScore(b, j) < RootScore(b, m))
  }

  /** The loop variables of `getBestMove` once a first move has been scored. */
  datatype Candidate = Candidate(score: int, move: Index)

  /** The loop of `getBestMove` from cell `i` on, with the best candidate so
      far (None while `bestScore` is still minus infinity); a later cell
      replaces the candidate only on a strictly greater score. */
  function ScanBest(b: Board, i: nat, best: Option<Candidate>): (r: Option<Candidate>)
    requires i <= 9
    requires best.Some? ==> best.value.move < i && b[best.value.move] == Empty
    requires best.Some? ==> best.value.score == RootScore(b, best.value.move)
    ensures r.None? <==> best.None? && forall j :: i <= j < 9 ==> b[j] != Empty
    ensures r.Some? ==> b[r.value.move] == Empty && r.value.score == RootScore(b, r.value.move)
    ensures r.Some? && best.Some? ==> best.value.score <= r.value.score
    ensures r.Some? ==> r == best || (i <= r.value.move && (best.Some? ==> best.value.score < r.value.score))
    ensures r.Some? ==> forall j: Index :: i <= j && b[j] == Empty ==> RootScore(b, j) <= r.value.score
    ensures r.Some? ==> forall j: Index :: i <= j < r.value.move && b[j] == Empty ==> RootScore(b, j) < r.value.score
    decreases 9 - i
  {
    if i == 9 then best
    else if b[i] != Empty then ScanBest(b, i + 1, best)
    else
      var score := RootScore(b, i);
      if best.None? || score > best.value.score then ScanBest(b, i + 1, Some(Candidate(score, i)))
      else ScanBest(b, i + 1, best)
  }

  /** `getBestMove`: None exactly when the board is full, otherwise the best
      move for O with ties going to the lowest index. */
  function BestMove(b: Board): (r: Option<Index>)
    ensures r.None? <==> Empty !in b
    ensures r.Some? ==> IsBestMove(b, r.value)
  {
    match ScanBest(b, 0, None)
    case None => None
    case Some(c) => Some(c.move)
  }

  /** At most one cell is the best move, so the tie-break makes the choice
      deterministic. */
  lemma BestMoveUnique(b: Board, m: Index, m': Index)
    requires IsBestMove(b, m) && IsBestMove(b, m')
    ensures m == m'
  {
  }

  /** With a single empty cell left, the best move is that cell. */
  lemma BestMoveSingleEmpty(b: Board, i: Index)
    requires b[i] == Empty
    requires forall j: Index :: j != i ==> b[j] != Empty
    ensures BestMove(b) == Some(i)
  {
    assert Empty in b;
  }

  /** On an unfinished board with O to move at `depth`, O can always do at
      least as well as losing one ply later than the next: the score is at
      least `-10 + depth + 1`. */
  lemma MaxNodeLowerBound(b: Board, depth: nat)
    requires CheckWinner(b).InProgress?
    requires depth + EmptyCount(b) <= 10
    ensures Minimax(b, depth, true) >= -9 + depth
  {
    var j: Index :| b[j] == Empty;
    var c := Place(b, j, O);
    assert Minimax(c, depth + 1, false) <= Minimax(b, depth, true);
  }
}
