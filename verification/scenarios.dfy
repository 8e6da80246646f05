/**
 * Concrete games: two sequences of clicks without the computer opponent and
 * one position in which the computer must block.
 */
module Scenarios {
  import opened Wrappers
  import opened Board
  import opened Evaluator
  import opened Search
  import opened Game

  /** Without the computer opponent, a click that neither completes a line
      nor fills the board writes the mark and passes the turn. */
  lemma ClickPasses(g: Game, i: Index)
    requires Accepts(g, i)
    requires !SomeLineComplete(Place(g.board, i, g.current)) && Empty in Place(g.board, i, g.current)
    ensures HandleCellClick(g, i, false) == Game(Place(g.board, i, g.current), Opponent(g.current), true)
  {
    var r := ClickCell(g, i);
    assert r.board == Place(g.board, i, g.current);
  }

  /** Without the computer opponent, a click that completes a line writes
      the mark and ends the game with the mover still current. */
  lemma ClickWins(g: Game, i: Index)
    requires Accepts(g, i)
    requires SomeLineComplete(Place(g.board, i, g.current))
    ensures HandleCellClick(g, i, false) == Game(Place(g.board, i, g.current), g.current, false)
  {
    var r := ClickCell(g, i);
    assert r.board == Place(g.board, i, g.current);
  }

  /** Shorthands for the cells of the concrete boards below. */
  const e: Cell := Empty
  const x: Cell := Mark(X)
  const o: Cell := Mark(O)

  /** The five clicks of the top-row game, one at a time, each with the
      evaluation of the board it produces. */
  lemma TopRowBoard1(b: Board)
    requires b == [x, e, e, e, e, e, e, e, e]
    ensures !SomeLineComplete(b) && Empty in b
  {
    assert b[1] == Empty;
  }

  lemma TopRowStep1(g: Game)
    requires g == Initial
    ensures Step(g, Click(0, false)) == Game([x, e, e, e, e, e, e, e, e], O, true)
  {
    TopRowBoard1(Place(g.board, 0, g.current));
    ClickPasses(g, 0);
  }

  lemma TopRowBoard2(b: Board)
    requires b == [x, e, e, e, o, e, e, e, e]
    ensures !SomeLineComplete(b) && Empty in b
  {
    assert b[1] == Empty;
  }

  lemma TopRowStep2(g: Game)
    requires g == Game([x, e, e, e, e, e, e, e, e], O, true)
    ensures Step(g, Click(4, false)) == Game([x, e, e, e, o, e, e, e, e], X, true)
  {
    TopRowBoard2(Place(g.board, 4, g.current));
    ClickPasses(g, 4);
  }

  lemma TopRowBoard3(b: Board)
    requires b == [x, x, e, e, o, e, e, e, e]
    ensures !SomeLineComplete(b) && Empty in b
  {
    assert b[2] == Empty;
  }

  lemma TopRowStep3(g: Game)
    requires g == Game([x, e, e, e, o, e, e, e, e], X, true)
    ensures Step(g, Click(1, false)) == Game([x, x, e, e, o, e, e, e, e], O, true)
  {
    TopRowBoard3(Place(g.board, 1, g.current));
    ClickPasses(g, 1);
  }

  lemma TopRowBoard4(b: Board)
    requires b == [x, x, e, e, o, e, e, o, e]
    ensures !SomeLineComplete(b) && Empty in b
  {
    assert b[2] == Empty;
  }

  lemma TopRowStep4(g: Game)
    requires g == Game([x, x, e, e, o, e, e, e, e], O, true)
    ensures Step(g, Click(7, false)) == Game([x, x, e, e, o, e, e, o, e], X, true)
  {
    TopRowBoard4(Place(g.board, 7, g.current));
    ClickPasses(g, 7);
  }

  lemma TopRowBoard5(b: Board)
    requires b == [x, x, x, e, o, e, e, o, e]
    ensures CheckWinner(b) == Won(X)
  {
    assert LineComplete(b, WinningLines[0]);
  }

  lemma TopRowStep5(g: Game)
    requires g == Game([x, x, e, e, o, e, e, o, e], X, true)
    ensures Step(g, Click(2, false)) == Game([x, x, x, e, o, e, e, o, e], X, false)
  {
    TopRowBoard5(Place(g.board, 2, g.current));
    ClickWins(g, 2);
  }

  /** X takes 0, 1 and 2 while O takes 4 and 7: X wins on the top row, the
      game stops, and X stays recorded as the current player. */
  lemma TopRowWin(es: seq<Event>)
    requires es == [Click(0, false), Click(4, false), Click(1, false), Click(7, false), Click(2, false)]
    ensures var g := Run(Initial, es);
      && g.board == [x, x, x, e, o, e, e, o, e]
      && CheckWinner(g.board) == Won(X)
      && !g.active && g.current == X
  {
    var g1 := Step(Initial, es[0]);
    TopRowStep1(Initial);
    var g2 := Step(g1, es[1]);
    TopRowStep2(g1);
    var g3 := Step(g2, es[2]);
    TopRowStep3(g2);
    var g4 := Step(g3, es[3]);
    TopRowStep4(g3);
    var g5 := Step(g4, es[4]);
    TopRowStep5(g4);
    assert Run(Initial, es) == Run(g1, es[1..]);
    assert Run(g1, es[1..]) == Run(g2, es[2..]);
    assert Run(g2, es[2..]) == Run(g3, es[3..]);
    assert Run(g3, es[3..]) == Run(g4, es[4..]);
    assert Run(g4, es[4..]) == Run(g5, es[5..]);
    TopRowBoard5(g5.board);
  }

  /** The clicks of the in-order game after the first (which is the same as
      the top-row game's), one at a time, each with the evaluation of the
      board it produces. */
  lemma InOrderBoard2(b: Board)
    requires b == [x, o, e, e, e, e, e, e, e]
    ensures !SomeLineComplete(b) && Empty in b
  {
    assert b[2] == Empty;
  }

  lemma InOrderStep2(g: Game)
    requires g == Game([x, e, e, e, e, e, e, e, e], O, true)
    ensures Step(g, Click(1, false)) == Game([x, o, e, e, e, e, e, e, e], X, true)
  {
    InOrderBoard2(Place(g.board, 1, g.current));
    ClickPasses(g, 1);
  }

  lemma InOrderBoard3(b: Board)
    requires b == [x, o, x, e, e, e, e, e, e]
    ensures !SomeLineComplete(b) && Empty in b
  {
    assert b[3] == Empty;
  }

  lemma InOrderStep3(g: Game)
    requires g == Game([x, o, e, e, e, e, e, e, e], X, true)
    ensures Step(g, Click(2, false)) == Game([x, o, x, e, e, e, e, e, e], O, true)
  {
    InOrderBoard3(Place(g.board, 2, g.current));
    ClickPasses(g, 2);
  }

  lemma InOrderBoard4(b: Board)
    requires b == [x, o, x, o, e, e, e, e, e]
    ensures !SomeLineComplete(b) && Empty in b
  {
    assert b[4] == Empty;
  }

  lemma InOrderStep4(g: Game)
    requires g == Game([x, o, x, e, e, e, e, e, e], O, true)
    ensures Step(g, Click(3, false)) == Game([x, o, x, o, e, e, e, e, e], X, true)
  {
    InOrderBoard4(Place(g.board, 3, g.current));
    ClickPasses(g, 3);
  }

  lemma InOrderBoard5(b: Board)
    requires b == [x, o, x, o, x, e, e, e, e]
    ensures !SomeLineComplete(b) && Empty in b
  {
    assert b[5] == Empty;
  }

  lemma InOrderStep5(g: Game)
    requires g == Game([x, o, x, o, e, e, e, e, e], X, true)
    ensures Step(g, Click(4, false)) == Game([x, o, x, o, x, e, e, e, e], O, true)
  {
    InOrderBoard5(Place(g.board, 4, g.current));
    ClickPasses(g, 4);
  }

  lemma InOrderBoard6(b: Board)
    requires b == [x, o, x, o, x, o, e, e, e]
    ensures !SomeLineComplete(b) && Empty in b
  {
    assert b[6] == Empty;
  }

  lemma InOrderStep6(g: Game)
    requires g == Game([x, o, x, o, x, e, e, e, e], O, true)
    ensures Step(g, Click(5, false)) == Game([x, o, x, o, x, o, e, e, e], X, true)
  {
    InOrderBoard6(Place(g.board, 5, g.current));
    ClickPasses(g, 5);
  }

  lemma InOrderBoard7(b: Board)
    requires b == [x, o, x, o, x, o, x, e, e]
    ensures CheckWinner(b) == Won(X)
  {
    assert LineComplete(b, WinningLines[7]);
  }

  lemma InOrderStep7(g: Game)
    requires g == Game([x, o, x, o, x, o, e, e, e], X, true)
    ensures Step(g, Click(6, false)) == Game([x, o, x, o, x, o, x, e, e], X, false)
  {
    InOrderBoard7(Place(g.board, 6, g.current));
    ClickWins(g, 6);
  }

  lemma InOrderStep8(g: Game)
    requires g == Game([x, o, x, o, x, o, x, e, e], X, false)
    ensures Step(g, Click(7, false)) == Game([x, o, x, o, x, o, x, e, e], X, false)
  {
  }

  lemma InOrderStep9(g: Game)
    requires g == Game([x, o, x, o, x, o, x, e, e], X, false)
    ensures Step(g, Click(8, false)) == Game([x, o, x, o, x, o, x, e, e], X, false)
  {
  }

  /** Clicking the cells 0 to 8 in order does not fill the board: X's mark
      at 6 completes the diagonal 2-4-6, and the clicks on 7 and 8 are then
      ignored. */
  lemma InOrderClicksEndOnDiagonal(es: seq<Event>)
    requires es == [Click(0, false), Click(1, false), Click(2, false), Click(3, false), Click(4, false),
                   Click(5, false), Click(6, false), Click(7, false), Click(8, false)]
    ensures var g := Run(Initial, es);
      && g.board == [x, o, x, o, x, o, x, e, e]
      && CheckWinner(g.board) == Won(X)
      && !g.active
  {
    var g1 := Step(Initial, es[0]);
    TopRowStep1(Initial);
    var g2 := Step(g1, es[1]);
    InOrderStep2(g1);
    var g3 := Step(g2, es[2]);
    InOrderStep3(g2);
    var g4 := Step(g3, es[3]);
    InOrderStep4(g3);
    var g5 := Step(g4, es[4]);
    InOrderStep5(g4);
    var g6 := Step(g5, es[5]);
    InOrderStep6(g5);
    var g7 := Step(g6, es[6]);
    InOrderStep7(g6);
    var g8 := Step(g7, es[7]);
    InOrderStep8(g7);
    var g9 := Step(g8, es[8]);
    InOrderStep9(g8);
    assert Run(Initial, es) == Run(g1, es[1..]);
    assert Run(g1, es[1..]) == Run(g2, es[2..]);
    assert Run(g2, es[2..]) == Run(g3, es[3..]);
    assert Run(g3, es[3..]) == Run(g4, es[4..]);
    assert Run(g4, es[4..]) == Run(g5, es[5..]);
    assert Run(g5, es[5..]) == Run(g6, es[6..]);
    assert Run(g6, es[6..]) == Run(g7, es[7..]);
    assert Run(g7, es[7..]) == Run(g8, es[8..]);
    assert Run(g8, es[8..]) == Run(g9, es[9..]);
    InOrderBoard7(g9.board);
  }

  /** The position of the blocking scenario: X on 0 and 1, O on 4, O to move. */
  predicate BlockPosition(b: Board) {
    b == [x, x, e, e, o, e, e, e, e]
  }

  /** Whatever empty cell O takes in the blocking position other than 2,
      the game goes on. */
  lemma NonBlockingMoveUnfinished(b: Board, m: Index)
    requires BlockPosition(b)
    requires b[m] == Empty && m != 2
    ensures CheckWinner(Place(b, m, O)).InProgress?
  {
    var bm := Place(b, m, O);
    assert !SomeLineComplete(bm) by {
      forall k | 0 <= k < |WinningLines|
        ensures !LineComplete(bm, WinningLines[k])
      {
      }
    }
    assert bm[5] == Empty || bm[6] == Empty;
  }

  /** X on 0 and 1 with 2 empty: X taking 2 wins on the top row. */
  lemma TopRowCompletes(c: Board)
    requires c[0] == x && c[1] == x && c[2] == Empty
    ensures CheckWinner(Place(c, 2, X)) == Won(X)
  {
    assert LineComplete(Place(c, 2, X), WinningLines[0]);
  }

  /** Any O move other than 2 lets X complete the top row on the next ply,
      so it scores at most -9. */
  lemma NonBlockingMoveLoses(b: Board, m: Index)
    requires BlockPosition(b)
    requires b[m] == Empty && m != 2
    ensures RootScore(b, m) <= -9
  {
    var bm := Place(b, m, O);
    NonBlockingMoveUnfinished(b, m);
    TopRowCompletes(bm);
    assert Minimax(bm, 0, false) <= Minimax(Place(bm, 2, X), 1, true);
  }

  /** After O blocks at 2, none of X's replies completes a line or fills
      the board. */
  lemma ReplyToBlockUnfinished(b2: Board, k: Index)
    requires b2 == [x, x, o, e, o, e, e, e, e]
    requires b2[k] == Empty
    ensures CheckWinner(Place(b2, k, X)).InProgress?
  {
    var c := Place(b2, k, X);
    assert !SomeLineComplete(c) by {
      forall l | 0 <= l < |WinningLines|
        ensures !LineComplete(c, WinningLines[l])
      {
      }
    }
    assert c[5] == Empty || c[6] == Empty;
  }

  /** After O blocks at 2 the game goes on. */
  lemma BlockedBoardUnfinished(b2: Board)
    requires b2 == [x, x, o, e, o, e, e, e, e]
    ensures CheckWinner(b2).InProgress?
  {
    assert !SomeLineComplete(b2) by {
      forall l | 0 <= l < |WinningLines|
        ensures !LineComplete(b2, WinningLines[l])
      {
      }
    }
    assert b2[3] == Empty;
  }

  /** Blocking at 2 scores at least -8: whatever X replies, the game goes on
      and O then moves at depth 1. */
  lemma BlockingMoveHolds(b: Board)
    requires BlockPosition(b)
    ensures RootScore(b, 2) >= -8
  {
    var b2 := Place(b, 2, O);
    assert b2 == [x, x, o, e, o, e, e, e, e];
    BlockedBoardUnfinished(b2);
    MinimaxAttained(b2, 0, false);
    var k: Index :| b2[k] == Empty && Minimax(b2, 0, false) == ChildScore(b2, 0, false, k);
    ReplyToBlockUnfinished(b2, k);
    MaxNodeLowerBound(Place(b2, k, X), 1);
  }

  /** The computer blocks X's top row: the best move is cell 2. */
  lemma BlocksTopRow(b: Board)
    requires BlockPosition(b)
    ensures BestMove(b) == Some(2)
  {
    assert b[2] == Empty;
    var m := BestMove(b).value;
    BlockingMoveHolds(b);
    if m != 2 {
      NonBlockingMoveLoses(b, m);
    }
  }
}
