/**
 * The game session: the board, whose turn it is, and whether the game still
 * accepts moves; the human move, the computer's reply, the result
 * bookkeeping after each move, and reset.
 */
module Game {
  import opened Board
  import opened Evaluator
  import opened Search

  /** `gameBoard`, `currentPlayer` and `isGameActive`. */
  datatype Game = Game(board: Board, current: Player, active: bool)

  /** A fresh game: empty board, X to move, accepting moves. */
  const Initial: Game := Game(EmptyBoard, X, true)

  /** `checkGameResult`: after a move, a complete line or a full board ends
      the game with the mover still recorded as current player; otherwise
      the turn passes to the other player. The board is not touched. */
  function CheckGameResult(g: Game): (r: Game)
    ensures r.board == g.board
    ensures r.active <==> g.active && CheckWinner(g.board).InProgress?
    ensures SomeLineComplete(g.board) ==> !r.active && r.current == g.current
    ensures !SomeLineComplete(g.board) && Empty !in g.board ==> !r.active && r.current == g.current
    ensures !SomeLineComplete(g.board) && Empty in g.board ==> r.active == g.active && r.current == Opponent(g.current)
  {
    if FirstCompleteLine(g.board).Some? then g.(active := false)
    else if Empty !in g.board then g.(active := false)
    else g.(current := Opponent(g.current))
  }

  /** A click on cell `i` is taken only on an empty cell of an active game. */
  predicate Accepts(g: Game, i: Index) {
    g.active && g.board[i] == Empty
  }

  /** The human part of `handleCellClick` with `updateCell`: a rejected click
      changes nothing; an accepted one writes the current player's mark into
      exactly that cell and then does the result bookkeeping. */
  function ClickCell(g: Game, i: Index): (r: Game)
    ensures !Accepts(g, i) ==> r == g
    ensures Accepts(g, i) ==> r.board[i] == Mark(g.current)
    ensures Accepts(g, i) ==> forall j: Index :: j != i ==> r.board[j] == g.board[j]
    ensures Accepts(g, i) ==> (r.active <==> CheckWinner(r.board).InProgress?)
    ensures Accepts(g, i) ==> r.current == if r.active then Opponent(g.current) else g.current
  {
    if g.board[i] != Empty || !g.active then g
    else CheckGameResult(g.(board := Place(g.board, i, g.current)))
  }

  /** `aiMove`: on an inactive game or a full board nothing changes;
      otherwise O is written into the best move's cell, every other cell is
      kept, and the result bookkeeping follows. The mark is O whoever the
      current player is. */
  function AiMove(g: Game): (r: Game)
    ensures !g.active || Empty !in g.board ==> r == g
    ensures g.active && Empty in g.board ==>
      exists m: Index :: IsBestMove(g.board, m) && r.board[m] == Mark(O) &&
        forall j: Index :: j != m ==> r.board[j] == g.board[j]
    ensures forall j: Index :: g.board[j] != Empty ==> r.board[j] == g.board[j]
    ensures g.active && Empty in g.board ==> (r.active <==> CheckWinner(r.board).InProgress?)
    ensures g.active && Empty in g.board ==> r.current == if r.active then Opponent(g.current) else g.current
  {
    if !g.active then g
    else match BestMove(g.board)
      case None => g
      case Some(m) => CheckGameResult(g.(board := Place(g.board, m, O)))
  }

  /** `handleCellClick`: the human move, then the computer's reply when the
      opponent is enabled, the game is still active and it is O's turn. The
      reply is applied at once rather than after a delay. */
  function HandleCellClick(g: Game, i: Index, aiEnabled: bool): (r: Game)
    ensures !Accepts(g, i) ==> r == g
    ensures Accepts(g, i) ==> r.board[i] == Mark(g.current)
    ensures forall j: Index :: g.board[j] != Empty ==> r.board[j] == g.board[j]
    ensures Accepts(g, i) && !(aiEnabled && ClickCell(g, i).active && ClickCell(g, i).current == O) ==>
      r == ClickCell(g, i)
    ensures Accepts(g, i) && aiEnabled && ClickCell(g, i).active && ClickCell(g, i).current == O ==>
      ReplyPlaced(ClickCell(g, i).board, r.board) && ReplyBookkept(r)
  {
    if !Accepts(g, i) then g
    else
      var h := ClickCell(g, i);
      if aiEnabled && h.active && h.current == O then ReplyFrame(g, i); AiMove(h) else h
  }

  /** `after` is `before` with O written into the cell `getBestMove` picks
      on `before`, and nothing else changed. */
  ghost predicate ReplyPlaced(before: Board, after: Board) {
    exists m: Index :: IsBestMove(before, m) && after[m] == Mark(O) &&
      forall j: Index :: j != m ==> after[j] == before[j]
  }

  /** After the computer's reply the game is active exactly while the board is
      unfinished; X is to move if it goes on, and O stays recorded as the
      current player if the reply ends it. */
  predicate ReplyBookkept(r: Game) {
    && (r.active <==> CheckWinner(r.board).InProgress?)
    && r.current == if r.active then X else O
  }

  /** The computer's reply to an accepted click that leaves the game running
      puts O into the best-move cell of the board after the click and keeps
      every other cell. */
  lemma ReplyFrame(g: Game, i: Index)
    requires Accepts(g, i) && ClickCell(g, i).active
    ensures ReplyPlaced(ClickCell(g, i).board, AiMove(ClickCell(g, i)).board)
    ensures ClickCell(g, i).current == O ==> ReplyBookkept(AiMove(ClickCell(g, i)))
  {
    var h := ClickCell(g, i);
    assert Empty in h.board;
    var m := BestMove(h.board).value;
    var r := AiMove(h);
    assert r.board == Place(h.board, m, O);
    assert IsBestMove(h.board, m) && r.board[m] == Mark(O);
  }

  /** Counts of marks on the board follow strict alternation from X, and the
      active flag agrees with the evaluation of the board. While the game is
      active, X is to move exactly when both players have as many marks. */
  predicate Inv(g: Game) {
    var nx := CountOf(g.board, Mark(X));
    var no := CountOf(g.board, Mark(O));
    && (nx == no || nx == no + 1)
    && (g.active ==> (g.current == X <==> nx == no))
    && (g.active <==> CheckWinner(g.board).InProgress?)
  }

  /** `resetGame`: whatever the prior state, an empty board, X to move, the
      game active, and the alternation invariant holding. */
  function ResetGame(g: Game): (r: Game)
    ensures forall i: Index :: r.board[i] == Empty
    ensures r.current == X && r.active
    ensures CheckWinner(r.board) == InProgress
    ensures Inv(r)
  {
    assert !SomeLineComplete(EmptyBoard);
    assert EmptyBoard[0] == Empty;
    Initial
  }

  /** A human move keeps the invariant. */
  lemma ClickCellPreservesInv(g: Game, i: Index)
    requires Inv(g)
    ensures Inv(ClickCell(g, i))
  {
    if Accepts(g, i) {
      PlaceCounts(g.board, i, g.current);
      assert Opponent(X) == O && Opponent(O) == X;
    }
  }

  /** The computer's move keeps the invariant when it is made on O's turn,
      as the guard in `handleCellClick` ensures. */
  lemma AiMovePreservesInv(g: Game)
    requires Inv(g)
    requires g.active ==> g.current == O
    ensures Inv(AiMove(g))
  {
    if g.active {
      assert Empty in g.board;
      var m := BestMove(g.board).value;
      PlaceCounts(g.board, m, O);
      assert AiMove(g) == CheckGameResult(g.(board := Place(g.board, m, O)));
    }
  }

  /** A whole click, with or without the computer's reply, keeps the
      invariant. */
  lemma HandleCellClickPreservesInv(g: Game, i: Index, aiEnabled: bool)
    requires Inv(g)
    ensures Inv(HandleCellClick(g, i, aiEnabled))
  {
    var h := ClickCell(g, i);
    ClickCellPreservesInv(g, i);
    if Accepts(g, i) && aiEnabled && h.active && h.current == O {
      AiMovePreservesInv(h);
    }
  }

  /** Against the computer, an accepted X move that does not end the game is
      answered at once: the board gains one X and one O, and unless the reply
      ends the game it is X's turn again. */
  lemma ComputerReplies(g: Game, i: Index)
    requires Inv(g) && Accepts(g, i) && g.current == X
    requires ClickCell(g, i).active
    ensures var r := HandleCellClick(g, i, true);
      && CountOf(r.board, Mark(X)) == CountOf(g.board, Mark(X)) + 1
      && CountOf(r.board, Mark(O)) == CountOf(g.board, Mark(O)) + 1
      && (r.active ==> r.current == X)
  {
    var h := ClickCell(g, i);
    assert h.board == Place(g.board, i, X);
    PlaceCounts(g.board, i, X);
    assert Empty in h.board;
    var m := BestMove(h.board).value;
    PlaceCounts(h.board, m, O);
    assert HandleCellClick(g, i, true) == CheckGameResult(h.(board := Place(h.board, m, O)));
  }

  /** The inputs the page forwards: a click on a cell (with the state of the
      computer-opponent checkbox at that moment) and the reset button. */
  datatype Event = Click(cell: Index, aiEnabled: bool) | Reset

  /** One event as the page dispatches it: the cell listeners call
      `handleCellClick` and the reset button's listener calls `resetGame`. */
  function Step(g: Game, e: Event): Game {
    match e
    case Click(i, ai) => HandleCellClick(g, i, ai)
    case Reset => ResetGame(g)
  }

  /** The state after the page has handled the events `es` in order. */
  function Run(g: Game, es: seq<Event>): Game
    decreases |es|
  {
    if |es| == 0 then g else Run(Step(g, es[0]), es[1..])
  }

  /** Every sequence of clicks and resets keeps the invariant. */
  lemma {:induction false} RunPreservesInv(g: Game, es: seq<Event>)
    requires Inv(g)
    ensures Inv(Run(g, es))
    decreases |es|
  {
    if |es| > 0 {
      match es[0] {
        case Click(i, ai) => HandleCellClickPreservesInv(g, i, ai);
        case Reset =>
      }
      RunPreservesInv(Step(g, es[0]), es[1..]);
    }
  }

  /** The state declared at page load satisfies the invariant. */
  lemma InitialInv()
    ensures Inv(Initial)
  {
    assert !SomeLineComplete(EmptyBoard);
    assert EmptyBoard[0] == Empty;
  }

  /** Every state reachable from page load satisfies the invariant. */
  lemma ReachableInv(es: seq<Event>)
    ensures Inv(Run(Initial, es))
  {
    InitialInv();
    RunPreservesInv(Initial, es);
  }
}
