/**
 * The game state of script.js: the hole array, selectedPeg, the snapshot
 * history and the message, with the operations that update them in place.
 */
module Engine {
  import opened Geometry
  import opened Rules

  class Game {
    /** Peg (true) or empty (false) for each hole, in createBoard's order. */
    var holes: array<bool>
    var selected: Selection
    /** One snapshot of the board per saveState call, oldest first. */
    var history: seq<seq<bool>>
    var message: Message

    /**
     * The history is never empty, starts with the initial board and ends
     * with the current one; a selection names a hole.
     */
    ghost predicate Valid()
      reads this, holes
    {
      && holes.Length == HOLE_COUNT
      && |history| >= 1
      && history[0] == InitialBoard()
      && (forall k :: 0 <= k < |history| ==> IsBoard(history[k]))
      && history[|history| - 1] == holes[..]
      && (!selected.Unselected? ==> IsHole(selected.at))
    }

    /** The page load: empty state, then createBoard. */
    constructor ()
      ensures Valid() && fresh(holes)
      ensures holes[..] == InitialBoard() && history == [InitialBoard()]
      ensures selected == Unselected && message == Blank
    {
      holes := new bool[HOLE_COUNT];
      selected := Unselected;
      history := [];
      message := Blank;
      new;
      CreateBoard();
    }

    /**
     * Builds a new hole array row by row, every hole a peg but (4,2), and
     * reseeds the history with it. selectedPeg is not reset: it keeps
     * pointing at a hole of the discarded board.
     */
    method CreateBoard()
      requires !selected.Unselected? ==> IsHole(selected.at)
      modifies this
      ensures Valid() && fresh(holes)
      ensures holes[..] == InitialBoard() && history == [InitialBoard()]
      ensures selected == old(selected).AfterRestart() && message == old(message)
    {
      var a := new bool[HOLE_COUNT];
      var row := 0;
      while row < ROWS
        modifies a
        invariant 0 <= row <= ROWS
        invariant forall j :: 0 <= j < RowStart(row) ==> a[j] == InitialBoard()[j]
      {
        PushRow(a, row);
        row := row + 1;
      }
      assert a[..] == InitialBoard();
      holes := a;
      selected := selected.AfterRestart();
      history := [];
      SaveState();
    }

    /** createBoard's inner loop: the holes of one row, left to right. */
    static method PushRow(a: array<bool>, row: nat)
      requires a.Length == HOLE_COUNT && row < ROWS
      requires forall j :: 0 <= j < RowStart(row) ==> a[j] == InitialBoard()[j]
      modifies a
      ensures forall j :: 0 <= j < RowStart(row + 1) ==> a[j] == InitialBoard()[j]
    {
      RowStartStep(row);
      RowStartMonotonic(row + 1, ROWS);
      var k := RowStart(row);
      var col := 0;
      while col <= row
        modifies a
        invariant 0 <= col <= row + 1 && k == RowStart(row) + col
        invariant forall j :: 0 <= j < k ==> a[j] == InitialBoard()[j]
      {
        WinIndexIff(row, col);
        a[k] := !(row == 4 && col == 2);
        k := k + 1;
        col := col + 1;
      }
    }

    /** The restart button: a new board and an empty message. */
    method Restart()
      requires Valid()
      modifies this
      ensures Valid() && fresh(holes)
      ensures holes[..] == InitialBoard() && history == [InitialBoard()]
      ensures selected == old(selected).AfterRestart() && message == Blank
    {
      CreateBoard();
      message := Blank;
    }

    /** Appends a snapshot of the current board. */
    method SaveState()
      requires holes.Length == HOLE_COUNT
      modifies this`history
      ensures history == old(history) + [holes[..]]
    {
      history := history + [holes[..]];
    }

    /**
     * Makes p the selected hole, replacing any earlier selection. The click
     * handler calls it only on a hole holding a peg.
     */
    method SelectPeg(p: Pos)
      requires Valid() && IsHole(p) && holes[Index(p)]
      modifies this`selected
      ensures Valid() && selected == OnBoard(p)
    {
      selected := OnBoard(p);
    }

    /**
     * The click path: jumps the selected peg to t over the midpoint when the
     * midpoint is a hole holding a peg; otherwise nothing changes. After a
     * jump the selection is cleared, a snapshot saved and the game checked.
     * The click handler calls it only on an empty hole; the selected hole
     * itself is not checked for a peg.
     */
    method MovePeg(t: Pos)
      requires Valid() && IsHole(t) && !holes[Index(t)]
      modifies this, holes
      ensures Valid() && holes == old(holes)
      ensures ClickMove(old(holes[..]), old(selected), t).None? ==>
        && holes[..] == old(holes[..]) && selected == old(selected)
        && history == old(history) && message == old(message)
      ensures ClickMove(old(holes[..]), old(selected), t).Some? ==>
        && holes[..] == ClickMove(old(holes[..]), old(selected), t).value
        && selected == Unselected
        && history == old(history) + [holes[..]]
        && message == Verdict(holes[..], old(message))
    {
      if selected.Unselected? {
        return;
      }
      ghost var before, chosen := holes[..], selected;
      var source := selected.at;
      var mid := Midpoint(source, t);
      if mid.Some? && holes[Index(mid.value)] {
        if selected.OnBoard? {
          // a detached source is a hole element no longer on the board
          Empty(source);
        }
        JumpOver(mid.value, t);
        assert holes[..] == ClickMove(before, chosen, t).value;
        selected := Unselected;
        ghost var after := holes[..];
        SaveState();
        assert Valid() && holes[..] == after;
        CheckGameOver();
      }
    }

    /**
     * The drop handler with the dragged hole at s and the drop target at t:
     * on an empty target whose midpoint with s holds a peg, the same jump as
     * MovePeg; selectedPeg is left alone. A drag carries its source only
     * when it starts on a peg, and the board cannot change during a drag.
     */
    method Drop(s: Pos, t: Pos)
      // the source peg is read on the board value holes[..], the value DropMove and Valid() compare
      requires Valid() && IsHole(s) && IsHole(t) && holes[..][Index(s)]
      modifies this, holes
      ensures Valid() && holes == old(holes) && selected == old(selected)
      ensures DropMove(old(holes[..]), s, t).None? ==>
        holes[..] == old(holes[..]) && history == old(history) && message == old(message)
      ensures DropMove(old(holes[..]), s, t).Some? ==>
        && holes[..] == DropMove(old(holes[..]), s, t).value
        && history == old(history) + [holes[..]]
        && message == Verdict(holes[..], old(message))
    {
      ghost var before := holes[..];
      if !holes[Index(t)] {
        var over := Midpoint(s, t);
        if over.Some? && holes[Index(over.value)] {
          Empty(s);
          JumpOver(over.value, t);
          assert holes[..] == DropMove(before, s, t).value;
          ghost var after := holes[..];
          SaveState();
          assert Valid() && holes[..] == after;
          CheckGameOver();
        }
      }
    }

    /** Takes the peg out of the hole at s. */
    method Empty(s: Pos)
      requires holes.Length == HOLE_COUNT && IsHole(s)
      modifies holes
      ensures holes[..] == old(holes[..])[Index(s) := false]
    {
      holes[Index(s)] := false;
    }

    /** The second half of a jump: the peg over m is removed and t gets a peg. */
    method JumpOver(m: Pos, t: Pos)
      requires holes.Length == HOLE_COUNT && IsHole(m) && IsHole(t)
      modifies holes
      ensures holes[..] == old(holes[..])[Index(m) := false][Index(t) := true]
    {
      holes[Index(m)] := false;
      holes[Index(t)] := true;
    }

    /**
     * With more than one snapshot: drops the latest, copies the one before it
     * back into the holes and clears the message. With one it does nothing.
     * The selection is never touched.
     */
    method UndoMove()
      requires Valid()
      modifies this, holes
      ensures Valid() && holes == old(holes) && selected == old(selected)
      ensures |old(history)| == 1 ==>
        holes[..] == old(holes[..]) && history == old(history) && message == old(message)
      ensures |old(history)| > 1 ==>
        && history == old(history)[..|old(history)| - 1]
        && holes[..] == old(history)[|old(history)| - 2]
        && message == Blank
    {
      if |history| > 1 {
        history := history[..|history| - 1];
        var previous := history[|history| - 1];
        assert IsBoard(previous);
        var i := 0;
        while i < holes.Length
          modifies holes
          invariant 0 <= i <= holes.Length
          invariant forall j :: 0 <= j < i ==> holes[j] == previous[j]
        {
          holes[i] := previous[i];
          i := i + 1;
        }
        assert holes[..] == previous;
        message := Blank;
      }
    }

    /**
     * Sets the win or lose message when one peg is left, the no-moves message
     * when hasValidMoves fails, and otherwise leaves the message as it was.
     */
    method CheckGameOver()
      requires holes.Length == HOLE_COUNT
      modifies this`message
      ensures message == Verdict(holes[..], old(message))
    {
      var pegs := PegCount(holes[..]);
      if pegs == 1 {
        var last := PosOf(FirstPeg(holes[..]));
        WinIndexIff(last.row, last.col);
        if last.row == 4 && last.col == 2 {
          message := YouWin;
        } else {
          message := YouLose;
        }
      } else {
        var any := HasValidMoves();
        ScanDecidesJump(holes[..]);
        if !any {
          message := NoMoreMoves;
        }
      }
    }

    /**
     * Scans the holes in order and answers true at the first peg that has a
     * jump. Reads the board only.
     */
    method HasValidMoves() returns (found: bool)
      requires holes.Length == HOLE_COUNT
      ensures found == AnyJump(holes[..])
    {
      ghost var board := holes[..];
      var i := 0;
      while i < holes.Length
        invariant 0 <= i <= holes.Length
        invariant NoJumpBelow(board, i)
      {
        var p := PosOf(i);
        if holes[i] {
          var jumps := JumpsFrom(p);
          if jumps {
            assert !NoJumpFrom(board, p);
            return true;
          }
        } else {
          assert NoJumpFrom(board, p);
        }
        i := i + 1;
      }
      NoJumpAnywhere(board);
      return false;
    }

    /**
     * The inner loop of hasValidMoves for the peg at p: tries the targets of
     * generateMoves in order and answers true at the first empty target hole
     * with a peg half-way.
     */
    method JumpsFrom(p: Pos) returns (found: bool)
      requires holes.Length == HOLE_COUNT && IsHole(p) && holes[Index(p)]
      ensures found == !NoJumpFrom(holes[..], p)
    {
      var moves := JumpTargets(p);
      var k := 0;
      while k < |moves|
        invariant 0 <= k <= |moves|
        invariant forall q :: 0 <= q < k ==> !CanJump(holes[..], p, moves[q])
      {
        var t := moves[k];
        var mid := Midpoint(p, t);
        if IsHole(t) && !holes[Index(t)] && mid.Some? && holes[Index(mid.value)] {
          assert CanJump(holes[..], p, t);
          return true;
        }
        k := k + 1;
      }
      return false;
    }
  }

  /**
   * Undo straight after an accepted click move gives back the board and
   * history before it; the message is cleared and the selection stays cleared.
   */
  method UndoAfterMove(g: Game, t: Pos)
    requires g.Valid() && IsHole(t) && !g.holes[Index(t)]
    requires ClickMove(g.holes[..], g.selected, t).Some?
    modifies g, g.holes
    ensures g.Valid() && g.holes == old(g.holes)
    ensures g.holes[..] == old(g.holes[..]) && g.history == old(g.history)
    ensures g.selected == Unselected && g.message == Blank
  {
    g.MovePeg(t);
    g.UndoMove();
  }

  /** Undo straight after an accepted drop gives back the board and history before it. */
  method UndoAfterDrop(g: Game, s: Pos, t: Pos)
    // as in Drop, the source peg is read on the board value rather than the array
    requires g.Valid() && IsHole(s) && IsHole(t) && g.holes[..][Index(s)]
    requires DropMove(g.holes[..], s, t).Some?
    modifies g, g.holes
    ensures g.Valid() && g.holes == old(g.holes)
    ensures g.holes[..] == old(g.holes[..]) && g.history == old(g.history)
    ensures g.selected == old(g.selected) && g.message == Blank
  {
    g.Drop(s, t);
    g.UndoMove();
  }

  /**
   * Pressing undo n times removes min(n, |history| - 1) snapshots; enough
   * presses bring back the initial board and no number goes past it.
   */
  method UndoRepeatedly(g: Game, n: nat)
    requires g.Valid()
    modifies g, g.holes
    ensures g.Valid() && g.holes == old(g.holes) && g.selected == old(g.selected)
    ensures |g.history| == if n < |old(g.history)| then |old(g.history)| - n else 1
    ensures g.history == old(g.history)[..|g.history|]
    ensures n >= |old(g.history)| - 1 ==> g.holes[..] == InitialBoard() && g.history == [InitialBoard()]
  {
    var pressed := 0;
    while pressed < n
      invariant 0 <= pressed <= n
      invariant g.Valid() && g.holes == old(g.holes) && g.selected == old(g.selected)
      invariant |g.history| == if pressed < |old(g.history)| then |old(g.history)| - pressed else 1
      invariant g.history == old(g.history)[..|g.history|]
    {
      g.UndoMove();
      pressed := pressed + 1;
    }
    if n >= |old(g.history)| - 1 {
      assert g.history == [InitialBoard()];
    }
  }
}
