/**
 * The rules of the game on board values: a board is the peg/empty state of
 * the 36 holes in the order createBoard pushes them (true = peg). These are
 * the specifications the Game class in engine.dfy is proved against.
 */
module Rules {
  import opened Geometry

  /** The text of the message element, as an enumeration. */
  datatype Message = Blank | YouWin | YouLose | NoMoreMoves

  /**
   * The value of selectedPeg: nothing, a hole of the current board, or a
   * hole of a board that a restart has since thrown away (createBoard
   * replaces every hole element but leaves selectedPeg pointing at the old one).
   */
  datatype Selection = Unselected | OnBoard(at: Pos) | Detached(at: Pos) {
    /** What selectedPeg refers to once createBoard has rebuilt the board. */
    function AfterRestart(): (s: Selection)
      ensures !s.OnBoard?
      ensures s.Unselected? <==> Unselected?
      ensures !Unselected? ==> s.at == at
    {
      if OnBoard? then Detached(at) else this
    }
  }

  predicate IsBoard(b: seq<bool>) {
    |b| == HOLE_COUNT
  }

  /** The board createBoard builds: a peg in every hole but WIN_HOLE. */
  function InitialBoard(): (b: seq<bool>)
    ensures IsBoard(b)
  {
    seq(HOLE_COUNT, i => i != WIN_INDEX)
  }

  /** The number of holes holding a peg (the length of checkGameOver's filter). */
  function PegCount(b: seq<bool>): (n: nat)
    ensures n <= |b|
  {
    if |b| == 0 then 0 else (if b[0] then 1 else 0) + PegCount(b[1..])
  }

  /** Setting one hole changes the peg count by what that hole lost or gained. */
  lemma {:induction false} PegCountUpdate(b: seq<bool>, i: nat, v: bool)
    requires i < |b|
    ensures PegCount(b[i := v]) == PegCount(b) - (if b[i] then 1 else 0) + (if v then 1 else 0)
  {
    if i == 0 {
      assert b[i := v][1..] == b[1..];
    } else {
      assert b[i := v][1..] == b[1..][i - 1 := v];
      PegCountUpdate(b[1..], i - 1, v);
    }
  }

  lemma {:induction false} PegCountFull(n: nat)
    ensures PegCount(seq(n, _ => true)) == n
  {
    if n > 0 {
      assert seq(n, _ => true)[1..] == seq(n - 1, _ => true);
      PegCountFull(n - 1);
    }
  }

  /** The starting board has 35 pegs, and its one empty hole is WIN_HOLE. */
  lemma InitialBoardPegs()
    ensures forall p :: IsHole(p) ==> (InitialBoard()[Index(p)] <==> p != WIN_HOLE)
    ensures PegCount(InitialBoard()) == HOLE_COUNT - 1
  {
    forall p | IsHole(p)
      ensures InitialBoard()[Index(p)] <==> p != WIN_HOLE
    {
      WinIndexIff(p.row, p.col);
    }
    var centre := WIN_INDEX;
    var full := seq(HOLE_COUNT, _ => true);
    assert InitialBoard() == full[centre := false];
    PegCountFull(HOLE_COUNT);
    PegCountUpdate(full, centre, false);
  }

  /** The index of the first peg: the pegs[0] of checkGameOver. */
  function FirstPeg(b: seq<bool>): (i: nat)
    requires PegCount(b) > 0
    ensures i < |b| && b[i]
    ensures forall j :: 0 <= j < i ==> !b[j]
  {
    if b[0] then 0 else 1 + FirstPeg(b[1..])
  }

  /** On a board with one peg, any two pegs are the same hole. */
  lemma {:induction false} LonePeg(b: seq<bool>, i: nat, j: nat)
    requires PegCount(b) == 1 && i < |b| && j < |b| && b[i] && b[j]
    ensures i == j
  {
    if b[0] {
      if i != 0 { PegCountPositive(b[1..], i - 1); }
      if j != 0 { PegCountPositive(b[1..], j - 1); }
    } else {
      LonePeg(b[1..], i - 1, j - 1);
    }
  }

  lemma {:induction false} PegCountPositive(b: seq<bool>, i: nat)
    requires i < |b| && b[i]
    ensures PegCount(b) > 0
  {
    if i > 0 {
      PegCountPositive(b[1..], i - 1);
    }
  }

  /**
   * The hole a jump from s to t removes: the hole `holes.find` returns for
   * the midpoint, provided it holds a peg. No distance or direction is checked.
   */
  function Captured(b: seq<bool>, s: Pos, t: Pos): (m: Option<Pos>)
    requires IsBoard(b)
    ensures m.Some? ==> IsHole(m.value)
  {
    match Midpoint(s, t)
    case None => None
    case Some(m) => if b[Index(m)] then Some(m) else None
  }

  /** The three-hole update both move paths perform, in the source's order. */
  function Jump(b: seq<bool>, s: Pos, m: Pos, t: Pos): (r: seq<bool>)
    requires IsBoard(b) && IsHole(s) && IsHole(m) && IsHole(t)
    ensures IsBoard(r)
  {
    b[Index(s) := false][Index(m) := false][Index(t) := true]
  }

  /**
   * The board after movePeg(t) when selectedPeg is `sel`, or None when
   * movePeg returns without changing anything. A detached source is written
   * to a thrown-away hole element, so only the midpoint and target change.
   */
  function ClickMove(b: seq<bool>, sel: Selection, t: Pos): (r: Option<seq<bool>>)
    requires IsBoard(b) && IsHole(t)
    requires !sel.Unselected? ==> IsHole(sel.at)
    ensures r.Some? ==> IsBoard(r.value)
  {
    if sel.Unselected? then None
    else match Captured(b, sel.at, t)
      case None => None
      case Some(m) =>
        if sel.OnBoard? then Some(Jump(b, sel.at, m, t))
        else Some(b[Index(m) := false][Index(t) := true])
  }

  /** The board after the drop handler moves s onto t, or None when it does nothing. */
  function DropMove(b: seq<bool>, s: Pos, t: Pos): (r: Option<seq<bool>>)
    requires IsBoard(b) && IsHole(s) && IsHole(t)
    ensures r.Some? ==> IsBoard(r.value)
  {
    if b[Index(t)] then None
    else match Captured(b, s, t)
      case None => None
      case Some(m) => Some(Jump(b, s, m, t))
  }

  /** What the three-hole update does, and that no other hole changes. */
  lemma JumpEffect(b: seq<bool>, s: Pos, m: Pos, t: Pos)
    requires IsBoard(b) && IsHole(s) && IsHole(m) && IsHole(t)
    ensures Jump(b, s, m, t)[Index(t)]
    ensures m != t ==> !Jump(b, s, m, t)[Index(m)]
    ensures s != t ==> !Jump(b, s, m, t)[Index(s)]
    ensures forall q :: IsHole(q) && q != s && q != m && q != t ==> Jump(b, s, m, t)[Index(q)] == b[Index(q)]
  {
    forall q | IsHole(q) && q != s && q != m && q != t
      ensures Jump(b, s, m, t)[Index(q)] == b[Index(q)]
    {
      if Index(q) == Index(s) { IndexInjective(q, s); }
      if Index(q) == Index(m) { IndexInjective(q, m); }
      if Index(q) == Index(t) { IndexInjective(q, t); }
    }
    if m != t && Index(m) == Index(t) { IndexInjective(m, t); }
    if s != t && Index(s) == Index(t) { IndexInjective(s, t); }
  }

  /**
   * A legal jump (source and midpoint pegs, target empty) touches three
   * distinct holes and removes exactly one peg.
   */
  lemma JumpRemovesOnePeg(b: seq<bool>, s: Pos, m: Pos, t: Pos)
    requires IsBoard(b) && IsHole(s) && IsHole(t) && Midpoint(s, t) == Some(m)
    requires b[Index(s)] && b[Index(m)] && !b[Index(t)]
    ensures s != m && m != t && s != t
    ensures PegCount(Jump(b, s, m, t)) == PegCount(b) - 1
  {
    var b1 := b[Index(s) := false];
    var b2 := b1[Index(m) := false];
    PegCountUpdate(b, Index(s), false);
    if Index(s) == Index(m) { IndexInjective(s, m); }
    PegCountUpdate(b1, Index(m), false);
    PegCountUpdate(b2, Index(t), true);
  }

  /**
   * movePeg does nothing exactly when no peg is selected, the midpoint is no
   * hole, or the midpoint hole is empty.
   */
  lemma ClickMoveRejected(b: seq<bool>, sel: Selection, t: Pos)
    requires IsBoard(b) && IsHole(t)
    requires !sel.Unselected? ==> IsHole(sel.at)
    ensures ClickMove(b, sel, t).None? <==>
      sel.Unselected? || Midpoint(sel.at, t).None? || !b[Index(Midpoint(sel.at, t).value)]
  {
  }

  /**
   * A successful movePeg from a selected hole of the board: source and
   * midpoint emptied, target filled, every other hole kept, and one peg
   * fewer when the source held a peg and the target was empty (the click
   * handler only calls movePeg on an empty hole).
   */
  lemma ClickMoveEffect(b: seq<bool>, s: Pos, t: Pos)
    requires IsBoard(b) && IsHole(s) && IsHole(t)
    requires ClickMove(b, OnBoard(s), t).Some?
    ensures Midpoint(s, t).Some? && b[Index(Midpoint(s, t).value)]
    ensures var r, m := ClickMove(b, OnBoard(s), t).value, Midpoint(s, t).value;
      && r[Index(t)]
      && (m != t ==> !r[Index(m)])
      && (s != t ==> !r[Index(s)])
      && (forall q :: IsHole(q) && q != s && q != m && q != t ==> r[Index(q)] == b[Index(q)])
      && (b[Index(s)] && !b[Index(t)] ==> PegCount(r) == PegCount(b) - 1)
  {
    var m := Midpoint(s, t).value;
    JumpEffect(b, s, m, t);
    if b[Index(s)] && !b[Index(t)] {
      JumpRemovesOnePeg(b, s, m, t);
    }
  }

  /**
   * A successful movePeg from a detached selection: the midpoint is emptied
   * and the target filled, but the source hole of the current board keeps
   * its peg, so the peg count does not fall when the target was empty.
   */
  lemma DetachedMoveEffect(b: seq<bool>, s: Pos, t: Pos)
    requires IsBoard(b) && IsHole(s) && IsHole(t)
    requires ClickMove(b, Detached(s), t).Some?
    ensures Midpoint(s, t).Some? && b[Index(Midpoint(s, t).value)]
    ensures var r, m := ClickMove(b, Detached(s), t).value, Midpoint(s, t).value;
      && r[Index(t)]
      && (m != t ==> !r[Index(m)])
      && (forall q :: IsHole(q) && q != m && q != t ==> r[Index(q)] == b[Index(q)])
      && (!b[Index(t)] ==> PegCount(r) == PegCount(b))
  {
    var m := Midpoint(s, t).value;
    var b1 := b[Index(m) := false];
    forall q | IsHole(q) && q != m && q != t
      ensures b1[Index(t) := true][Index(q)] == b[Index(q)]
    {
      if Index(q) == Index(m) { IndexInjective(q, m); }
      if Index(q) == Index(t) { IndexInjective(q, t); }
    }
    if m != t && Index(m) == Index(t) { IndexInjective(m, t); }
    PegCountUpdate(b, Index(m), false);
    PegCountUpdate(b1, Index(t), true);
  }

  /**
   * The drop handler acts only on an empty target whose midpoint with the
   * source is a hole holding a peg; it then performs the same three-hole
   * update as movePeg, removing one peg when the dragged hole held one.
   */
  lemma DropMoveEffect(b: seq<bool>, s: Pos, t: Pos)
    requires IsBoard(b) && IsHole(s) && IsHole(t)
    ensures DropMove(b, s, t).Some? <==>
      !b[Index(t)] && Midpoint(s, t).Some? && b[Index(Midpoint(s, t).value)]
    ensures DropMove(b, s, t).Some? ==>
      DropMove(b, s, t) == ClickMove(b, OnBoard(s), t) &&
      (b[Index(s)] ==> PegCount(DropMove(b, s, t).value) == PegCount(b) - 1)
  {
    if DropMove(b, s, t).Some? && b[Index(s)] {
      JumpRemovesOnePeg(b, s, Midpoint(s, t).value, t);
    }
  }

  /** The jump hasValidMoves looks for: peg at p, empty hole at t, peg half-way. */
  ghost predicate CanJump(b: seq<bool>, p: Pos, t: Pos)
    requires IsBoard(b)
  {
    && IsHole(p) && b[Index(p)]
    && IsHole(t) && !b[Index(t)]
    && Midpoint(p, t).Some? && b[Index(Midpoint(p, t).value)]
  }

  /** What hasValidMoves decides: some peg has a jump to a generateMoves target. */
  ghost predicate AnyJump(b: seq<bool>)
    requires IsBoard(b)
  {
    exists p, t :: IsHole(p) && t in JumpTargets(p) && CanJump(b, p, t)
  }

  /** None of the generateMoves targets of p is a jump from p. */
  ghost predicate NoJumpFrom(b: seq<bool>, p: Pos)
    requires IsBoard(b)
  {
    forall t :: t in JumpTargets(p) ==> !CanJump(b, p, t)
  }

  /** None of the first n holes, in createBoard's order, has a jump. */
  ghost predicate NoJumpBelow(b: seq<bool>, n: nat)
    requires IsBoard(b) && n <= HOLE_COUNT
  {
    n == 0 || (NoJumpBelow(b, n - 1) && NoJumpFrom(b, PosOf(n - 1)))
  }

  lemma {:induction false} NoJumpBelowEach(b: seq<bool>, n: nat, i: nat)
    requires IsBoard(b) && i < n <= HOLE_COUNT && NoJumpBelow(b, n)
    ensures NoJumpFrom(b, PosOf(i))
  {
    if i < n - 1 {
      NoJumpBelowEach(b, n - 1, i);
    }
  }

  /** A scan of every hole index that finds no jump shows there is none. */
  lemma NoJumpAnywhere(b: seq<bool>)
    requires IsBoard(b) && NoJumpBelow(b, |b|)
    ensures !AnyJump(b)
  {
    forall p | IsHole(p)
      ensures NoJumpFrom(b, p)
    {
      PosOfIndex(p);
      NoJumpBelowEach(b, |b|, Index(p));
    }
  }

  lemma {:induction false} NoJumpBelowFromNone(b: seq<bool>, n: nat)
    requires IsBoard(b) && n <= HOLE_COUNT && !AnyJump(b)
    ensures NoJumpBelow(b, n)
  {
    if n > 0 {
      NoJumpBelowFromNone(b, n - 1);
      NoJumpFromAny(b, PosOf(n - 1));
    }
  }

  lemma NoJumpFromAny(b: seq<bool>, p: Pos)
    requires IsBoard(b) && IsHole(p) && !AnyJump(b)
    ensures NoJumpFrom(b, p)
  {
    forall t | t in JumpTargets(p)
      ensures !CanJump(b, p, t)
    {
      assert !(IsHole(p) && t in JumpTargets(p) && CanJump(b, p, t));
    }
  }

  /**
   * The scan of hasValidMoves over all 36 holes is a decision procedure:
   * it finds no jump exactly when no peg has one.
   */
  lemma ScanDecidesJump(b: seq<bool>)
    requires IsBoard(b)
    ensures NoJumpBelow(b, |b|) <==> !AnyJump(b)
  {
    if NoJumpBelow(b, |b|) {
      NoJumpAnywhere(b);
    } else if !AnyJump(b) {
      NoJumpBelowFromNone(b, |b|);
    }
  }

  /**
   * Every jump hasValidMoves counts is one that both movePeg (with the peg
   * selected) and the drop handler accept, with the peg count falling by one.
   */
  lemma FoundJumpIsAccepted(b: seq<bool>, p: Pos, t: Pos)
    requires IsBoard(b) && CanJump(b, p, t)
    ensures ClickMove(b, OnBoard(p), t).Some? && DropMove(b, p, t).Some?
    ensures PegCount(DropMove(b, p, t).value) == PegCount(b) - 1
  {
    DropMoveEffect(b, p, t);
  }

  /** p and q are neighbours: one step apart along one of the six jump directions. */
  predicate Adjacent(p: Pos, q: Pos) {
    var dr, dc := q.row - p.row, q.col - p.col;
    (dr == 0 && (dc == 1 || dc == -1)) || (dc == 0 && (dr == 1 || dr == -1)) ||
    (dr == dc && (dr == 1 || dr == -1))
  }

  /**
   * A jump needs a peg next to the jumping peg, so on a board where no two
   * pegs are neighbours hasValidMoves finds nothing.
   */
  lemma ScatteredPegsHaveNoJump(b: seq<bool>)
    requires IsBoard(b)
    requires forall p, q :: IsHole(p) && IsHole(q) && b[Index(p)] && b[Index(q)] ==> !Adjacent(p, q)
    ensures !AnyJump(b)
  {
    forall p, t | IsHole(p) && t in JumpTargets(p) && IsHole(t) && Midpoint(p, t).Some?
      ensures Adjacent(p, Midpoint(p, t).value)
    {
      JumpTargetMidpoint(p, t);
    }
  }

  /**
   * The converse fails: the move rule has no distance check. On a board whose
   * only pegs are s and the hole two rows below it, no two pegs are
   * neighbours and hasValidMoves finds nothing, yet dragging s four rows down
   * is accepted, captures the other peg and leaves a single peg.
   */
  lemma LongJumpWithoutValidMoves(b: seq<bool>, s: Pos, t: Pos)
    requires IsBoard(b) && IsHole(s) && IsHole(t)
    requires t == Pos(s.row + 4, s.col)
    requires forall q :: IsHole(q) ==> (b[Index(q)] <==> q == s || q == Pos(s.row + 2, s.col))
    ensures !AnyJump(b)
    ensures t !in JumpTargets(s)
    ensures DropMove(b, s, t).Some? && ClickMove(b, OnBoard(s), t).Some?
    ensures PegCount(DropMove(b, s, t).value) == 1
  {
    var m := Pos(s.row + 2, s.col);
    assert !b[Index(t)];
    assert Midpoint(s, t) == Some(m) by {
      MidpointOfHoles(s, t);
    }
    assert !AnyJump(b) by {
      ScatteredPegsHaveNoJump(b);
    }
    assert PegCount(b) == 2 by {
      var i, j := Index(s), Index(m);
      IndexRowMajor(s, m);
      forall k | 0 <= k < |b|
        ensures b[k] <==> k == i || k == j
      {
        var q := PosOf(k);
        assert b[k] == b[Index(q)];
      }
      OnlyPegs(b, i, j);
    }
    DropMoveEffect(b, s, t);
  }

  lemma OnlyPegs(b: seq<bool>, i: nat, j: nat)
    requires i < j < |b|
    requires forall k :: 0 <= k < |b| ==> (b[k] <==> k == i || k == j)
    ensures PegCount(b) == 2
  {
    var c := b[i := false];
    PegCountUpdate(b, i, false);
    PegCountUpdate(c, j, false);
    NoPegs(c[j := false]);
  }

  lemma {:induction false} NoPegs(b: seq<bool>)
    requires forall k :: 0 <= k < |b| ==> !b[k]
    ensures PegCount(b) == 0
  {
    if b != [] {
      NoPegs(b[1..]);
    }
  }

  /** At the start a jump exists, e.g. (2,2) over (3,2) into the empty (4,2). */
  lemma InitialBoardHasJump()
    ensures AnyJump(InitialBoard())
  {
    var b := InitialBoard();
    var p, m, t := Pos(2, 2), Pos(3, 2), WIN_HOLE;
    assert Index(p) == 5 && Index(m) == 8 && Index(t) == 12;
    assert b[Index(p)] && b[Index(m)] && !b[Index(t)];
    assert t == JumpTargets(p)[1];
    assert Midpoint(p, t) == Some(m);
    assert CanJump(b, p, t);
  }

  /**
   * The message checkGameOver leaves after a move on board b, when the
   * message was `msg` before it. It only ever sets a message, never clears one.
   */
  ghost function Verdict(b: seq<bool>, msg: Message): (r: Message)
    requires IsBoard(b)
    ensures r != msg ==> r != Blank
  {
    if PegCount(b) == 1 then
      (if FirstPeg(b) == WIN_INDEX then YouWin else YouLose)
    else if NoJumpBelow(b, |b|) then NoMoreMoves
    else msg
  }

  /**
   * checkGameOver's verdicts: a single peg wins exactly when it is at (4,2)
   * and loses otherwise; with any other number of pegs "no more valid moves"
   * is shown exactly when hasValidMoves fails, and an earlier message stays.
   */
  lemma VerdictCases(b: seq<bool>, msg: Message)
    requires IsBoard(b)
    ensures PegCount(b) == 1 ==>
      Verdict(b, msg) == (if b[Index(WIN_HOLE)] then YouWin else YouLose)
    ensures PegCount(b) != 1 ==>
      Verdict(b, msg) == (if AnyJump(b) then msg else NoMoreMoves)
  {
    if PegCount(b) == 1 {
      WinIndex();
      if b[WIN_INDEX] {
        LonePeg(b, FirstPeg(b), WIN_INDEX);
      }
    } else {
      ScanDecidesJump(b);
    }
  }

  /** Checking the starting board leaves the message as it was. */
  lemma InitialVerdict(msg: Message)
    ensures Verdict(InitialBoard(), msg) == msg
  {
    InitialBoardPegs();
    InitialBoardHasJump();
    ScanDecidesJump(InitialBoard());
  }
}
