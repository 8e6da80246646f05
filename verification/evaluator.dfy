/**
 * Classifying a board: won by the mark of the first complete line of the
 * table, drawn when no line is complete and no cell is empty, otherwise
 * still in progress.
 */
module Evaluator {
  import opened Wrappers
  import opened Board

  /** The result of `checkWinner`: `null`, a mark, or `'draw'`. */
  datatype Outcome = InProgress | Won(winner: Player) | Draw

  /** `k` is the index of the first complete line of the table on `b`. */
  predicate IsFirstCompleteLine(b: Board, k: nat) {
    && k < |WinningLines|
    && LineComplete(b, WinningLines[k])
    && forall j :: 0 <= j < k ==> !LineComplete(b, WinningLines[j])
  }

  /** The table scan from line `k` on: the first complete line at or after
      `k`, or None when every remaining line is incomplete. */
  function FirstCompleteFrom(b: Board, k: nat): (r: Option<nat>)
    requires k <= |WinningLines|
    ensures r.None? <==> forall j :: k <= j < |WinningLines| ==> !LineComplete(b, WinningLines[j])
    ensures r.Some? ==> k <= r.value < |WinningLines| && LineComplete(b, WinningLines[r.value])
    ensures r.Some? ==> forall j :: k <= j < r.value ==> !LineComplete(b, WinningLines[j])
    decreases |WinningLines| - k
  {
    if k == |WinningLines| then None
    else if LineComplete(b, WinningLines[k]) then Some(k)
    else FirstCompleteFrom(b, k + 1)
  }

  /** The scan of the whole table finds the first complete line, and finds
      one exactly when some line is complete. */
  function FirstCompleteLine(b: Board): (r: Option<nat>)
    ensures r.Some? <==> SomeLineComplete(b)
    ensures r.Some? ==> IsFirstCompleteLine(b, r.value)
  {
    FirstCompleteFrom(b, 0)
  }

  /** `checkWinner`: the mark of the first complete line, else a draw on a
      full board, else in progress. */
  function CheckWinner(b: Board): (r: Outcome)
    ensures r.InProgress? <==> !SomeLineComplete(b) && Empty in b
    ensures r.Draw? <==> !SomeLineComplete(b) && Empty !in b
    ensures r.Won? <==> SomeLineComplete(b)
    ensures r.Won? ==> exists k: nat :: IsFirstCompleteLine(b, k) && b[WinningLines[k].a] == Mark(r.winner)
  {
    match FirstCompleteLine(b)
    case Some(k) => Won(b[WinningLines[k].a].player)
    case None => if Empty in b then InProgress else Draw
  }

  /** There is at most one first complete line. */
  lemma FirstCompleteLineUnique(b: Board, k: nat, k': nat)
    requires IsFirstCompleteLine(b, k) && IsFirstCompleteLine(b, k')
    ensures k == k'
  {
  }

  /** Relabelling: X and O exchanged in every cell. */
  function SwapCell(c: Cell): (r: Cell)
    ensures r == Empty <==> c == Empty
  {
    match c
    case Empty => Empty
    case Mark(p) => Mark(Opponent(p))
  }

  function SwapBoard(b: Board): (r: Board)
    ensures forall i :: 0 <= i < 9 ==> r[i] == SwapCell(b[i])
  {
    seq(9, i requires 0 <= i < 9 => SwapCell(b[i]))
  }

  function SwapOutcome(o: Outcome): Outcome {
    match o
    case Won(p) => Won(Opponent(p))
    case _ => o
  }

  /** Relabelling X and O keeps exactly the same lines complete. */
  lemma SwapKeepsLines(b: Board, l: Line)
    ensures LineComplete(SwapBoard(b), l) <==> LineComplete(b, l)
  {
    var s := SwapBoard(b);
    if LineComplete(b, l) {
      assert s[l.a] == SwapCell(b[l.a]);
    }
    if LineComplete(s, l) {
      assert b[l.a] != Empty;
      assert SwapCell(b[l.b]) == SwapCell(b[l.a]);
    }
  }

  /** The evaluation is symmetric: relabelling X and O relabels the winner
      and leaves draws and unfinished games as they are. */
  lemma CheckWinnerSymmetric(b: Board)
    ensures CheckWinner(SwapBoard(b)) == SwapOutcome(CheckWinner(b))
  {
    var s := SwapBoard(b);
    forall k | 0 <= k < |WinningLines|
      ensures LineComplete(s, WinningLines[k]) <==> LineComplete(b, WinningLines[k])
    {
      SwapKeepsLines(b, WinningLines[k]);
    }
    assert Empty in s <==> Empty in b by {
      if Empty in b {
        var i :| 0 <= i < 9 && b[i] == Empty;
        assert s[i] == Empty;
      }
      if Empty in s {
        var i :| 0 <= i < 9 && s[i] == Empty;
        assert b[i] == Empty;
      }
    }
    match FirstCompleteLine(b)
    case None =>
    case Some(k) =>
      var k' := FirstCompleteLine(s).value;
      assert IsFirstCompleteLine(b, k');
      FirstCompleteLineUnique(b, k, k');
  }
}
