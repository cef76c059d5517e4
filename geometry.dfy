/**
 * The triangular board: positions, the row-major numbering of the holes
 * built by createBoard, the midpoint lookup shared by both move paths and
 * the jump offsets of generateMoves.
 */
module Geometry {

  datatype Option<T> = None | Some(value: T)

  /** A hole's coordinates, as stored in its data-row and data-col attributes. */
  datatype Pos = Pos(row: int, col: int)

  /** createBoard builds eight rows; row r has the columns 0..r. */
  const ROWS: int := 8

  /** 1 + 2 + ... + 8 holes. */
  const HOLE_COUNT: int := 36

  /** The hole left empty at the start and the only hole a last peg wins on. */
  const WIN_HOLE: Pos := Pos(4, 2)

  /** The index createBoard gives WIN_HOLE: row 4 starts at index 10. */
  const WIN_INDEX: nat := 12

  /** True exactly for the positions createBoard creates a hole for. */
  predicate IsHole(p: Pos) {
    0 <= p.row < ROWS && 0 <= p.col <= p.row
  }

  /**
   * Number of holes pushed before row r, for the rows 0..8: row r holds r + 1
   * holes, so the rows start at 0, 1, 3, 6, 10, 15, 21 and 28, and 36 holes
   * come before the (missing) ninth row.
   */
  function RowStart(r: nat): (n: nat)
    requires r <= ROWS
  {
    if r < 4 then
      (if r < 2 then r else if r == 2 then 3 else 6)
    else if r < 6 then
      (if r == 4 then 10 else 15)
    else
      (if r == 6 then 21 else if r == 7 then 28 else 36)
  }

  /** Each row holds one hole more than its row number. */
  lemma RowStartStep(r: nat)
    requires r < ROWS
    ensures RowStart(r + 1) == RowStart(r) + r + 1
  {
  }

  /**
   * The table agrees with the push order: 1 + 2 + ... + r holes come before
   * row r.
   */
  lemma {:induction false} RowStartClosedForm(r: nat)
    requires r <= ROWS
    ensures RowStart(r) == r * (r + 1) / 2
  {
    if r > 0 {
      RowStartClosedForm(r - 1);
      RowStartStep(r - 1);
      assert r * (r + 1) == (r - 1) * r + 2 * r;
    }
  }

  /** Rows start at least one index apart: s - r rows on, the start has moved by at least s - r. */
  lemma {:induction false} RowStartMonotonic(r: nat, s: nat)
    requires r <= s <= ROWS
    ensures RowStart(r) + (s - r) <= RowStart(s)
  {
    if r < s {
      RowStartMonotonic(r, s - 1);
      RowStartStep(s - 1);
    }
  }

  /** The index in `holes` at which createBoard pushes the hole at p. */
  function Index(p: Pos): (i: nat)
    requires IsHole(p)
    ensures i < HOLE_COUNT
  {
    RowStartStep(p.row);
    RowStartMonotonic(p.row + 1, ROWS);
    RowStart(p.row) + p.col
  }

  /**
   * Holes are numbered row by row, left to right: a hole that comes first in
   * reading order has the smaller index.
   */
  lemma IndexRowMajor(p: Pos, q: Pos)
    requires IsHole(p) && IsHole(q)
    requires p.row < q.row || (p.row == q.row && p.col < q.col)
    ensures Index(p) < Index(q)
  {
    if p.row < q.row {
      RowStartStep(p.row);
      RowStartMonotonic(p.row + 1, q.row);
    }
  }

  lemma IndexInjective(p: Pos, q: Pos)
    requires IsHole(p) && IsHole(q) && Index(p) == Index(q)
    ensures p == q
  {
    if p.row < q.row || (p.row == q.row && p.col < q.col) {
      IndexRowMajor(p, q);
    } else if q.row < p.row || (q.row == p.row && q.col < p.col) {
      IndexRowMajor(q, p);
    }
  }

  /** The row holding the hole stored at index i: the rows start at 0, 1, 3, 6, 10, 15, 21 and 28. */
  function RowOf(i: nat): (r: nat)
    requires i < HOLE_COUNT
    ensures r < ROWS && RowStart(r) <= i < RowStart(r + 1)
  {
    if i < 10 then
      (if i < 3 then (if i < 1 then 0 else 1) else (if i < 6 then 2 else 3))
    else
      (if i < 21 then (if i < 15 then 4 else 5) else (if i < 28 then 6 else 7))
  }

  /** The position of the hole stored at index i of `holes`. */
  function PosOf(i: nat): (p: Pos)
    requires i < HOLE_COUNT
    ensures IsHole(p) && Index(p) == i
  {
    var r := RowOf(i);
    Pos(r, i - RowStart(r))
  }

  /** Index and PosOf are inverse bijections between holes and 0..35. */
  lemma PosOfIndex(p: Pos)
    requires IsHole(p)
    ensures PosOf(Index(p)) == p
  {
    IndexInjective(PosOf(Index(p)), p);
  }

  /**
   * The hole checkGameOver tests for, row 4 and column 2, is the one stored
   * at WIN_INDEX, and no other hole is.
   */
  lemma {:induction false} WinIndexIff(row: int, col: int)
    requires IsHole(Pos(row, col))
    ensures RowStart(row) + col == WIN_INDEX <==> row == 4 && col == 2
  {
    RowStartStep(row);
    if row < 4 {
      RowStartMonotonic(row + 1, 4);
    } else if row > 4 {
      RowStartMonotonic(5, row);
    }
  }

  lemma WinIndex()
    ensures Index(WIN_HOLE) == WIN_INDEX
  {
    WinIndexIff(WIN_HOLE.row, WIN_HOLE.col);
  }

  /**
   * The hole `holes.find` returns for the midpoint of s and t: the
   * coordinates (s + t) / 2 are computed in floating point, so a half-integer
   * coordinate matches no hole, and neither does an integer one off the board.
   */
  function Midpoint(s: Pos, t: Pos): (m: Option<Pos>)
    ensures m.Some? ==> IsHole(m.value)
    ensures m.Some? ==> 2 * m.value.row == s.row + t.row && 2 * m.value.col == s.col + t.col
  {
    if (s.row + t.row) % 2 == 0 && (s.col + t.col) % 2 == 0 &&
       IsHole(Pos((s.row + t.row) / 2, (s.col + t.col) / 2))
    then Some(Pos((s.row + t.row) / 2, (s.col + t.col) / 2))
    else None
  }

  /**
   * The triangle is convex: between two holes the midpoint lookup finds a
   * hole exactly when both coordinate sums are even.
   */
  lemma MidpointOfHoles(s: Pos, t: Pos)
    requires IsHole(s) && IsHole(t)
    ensures Midpoint(s, t).Some? <==> (s.row + t.row) % 2 == 0 && (s.col + t.col) % 2 == 0
  {
    if (s.row + t.row) % 2 == 0 && (s.col + t.col) % 2 == 0 {
      var m := Pos((s.row + t.row) / 2, (s.col + t.col) / 2);
      assert 2 * m.row == s.row + t.row && 2 * m.col == s.col + t.col;
      assert IsHole(m);
    }
  }

  /**
   * The candidate targets of generateMoves: two steps up or down a column,
   * along a row, or along the diagonal that keeps row - col fixed.
   */
  function JumpTargets(p: Pos): (ts: seq<Pos>)
    ensures |ts| == 6
    ensures forall k :: 0 <= k < |ts| ==>
      ts[k] != p && (ts[k].row - p.row) % 2 == 0 && (ts[k].col - p.col) % 2 == 0
  {
    [Pos(p.row - 2, p.col), Pos(p.row + 2, p.col),
     Pos(p.row, p.col - 2), Pos(p.row, p.col + 2),
     Pos(p.row - 2, p.col - 2), Pos(p.row + 2, p.col + 2)]
  }

  /** The jump relation is symmetric: t is a candidate from p exactly when p is one from t. */
  lemma JumpTargetsSymmetric(p: Pos, t: Pos)
    ensures t in JumpTargets(p) <==> p in JumpTargets(t)
  {
  }

  /**
   * Every candidate target of generateMoves that is a hole has a hole
   * half-way, one step from p along the same direction.
   */
  lemma JumpTargetMidpoint(p: Pos, t: Pos)
    requires IsHole(p) && IsHole(t) && t in JumpTargets(p)
    ensures Midpoint(p, t) == Some(Pos((p.row + t.row) / 2, (p.col + t.col) / 2))
    ensures Midpoint(p, t).value != p && Midpoint(p, t).value != t
  {
    assert (p.row + t.row) % 2 == 0 && (p.col + t.col) % 2 == 0;
    MidpointOfHoles(p, t);
  }
}
