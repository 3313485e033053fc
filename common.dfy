/**
  Types shared by both games: players, board positions, cell occupancy,
  an Option type for the source's `None`, and an outcome for the
  "Inconsistent state" errors raised by the tic-tac-toe board.
 */
module Common {

  /** A player of either game. The source compares player objects; here a
      player is identified by the symbol it is drawn with. */
  datatype Player = Player(symbol: char)

  /** A board position: (row, column), row 0 at the top. */
  datatype Pos = Pos(row: int, column: int)

  /** What a cell holds: nobody (`None` in the source) or a player's disc or mark. */
  datatype Cell = Empty | Taken(owner: Player)

  datatype Option<+T> = None | Some(value: T)

  /** The only error the boards raise: placing on an occupied cell or
      clearing an empty one. */
  datatype Error = InconsistentState

  datatype Outcome = Pass | Fail(error: Error)

  function Max(x: real, y: real): (m: real)
    ensures m >= x && m >= y && (m == x || m == y)
  {
    if x < y then y else x
  }

  /** The value of a win found at search depth `level`: 1/level. Both
      searches divide a terminal score by the depth it was found at. */
  function WinAt(level: nat): (u: real)
    requires level >= 1
    ensures 0.0 < u <= 1.0 && (level == 1 <==> u == 1.0)
  {
    1.0 / level as real
  }

  /** A win is worth less the deeper it lies. */
  lemma Reciprocals(level: nat)
    requires level >= 1
    ensures WinAt(level + 1) < WinAt(level)
    ensures -1.0 / level as real == -WinAt(level)
  {
  }

  /** A decayed terminal score of 0 or 1. */
  lemma Decay(s: int, level: nat)
    requires level >= 1 && (s == 0 || s == 1)
    ensures s == 0 ==> s as real / level as real == 0.0
    ensures s == 1 ==> s as real / level as real == WinAt(level)
  {
  }
}
