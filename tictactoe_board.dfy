/**
  The tic-tac-toe board of tictactoe.py: a 3 x 3 dict of tiles keyed by
  (row, column), each empty or holding a player, and the two turn pointers
  nextPlayer and previousPlayer that `set` and `clear` toggle.

  `Game` is the board's value; the class `TicTacToe` holds the same data in
  mutable fields and its methods are specified by the functions on `Game`.
 */
module TicTacToeBoard {
  import opened Common

  predicate InGrid(p: Pos) {
    0 <= p.row < 3 && 0 <= p.column < 3
  }

  /** The dict holds exactly one tile per grid position. */
  ghost predicate Tiles(t: map<Pos, Cell>) {
    forall p :: p in t <==> InGrid(p)
  }

  /** The nine positions of the grid. */
  const Grid: set<Pos> := {Pos(0, 0), Pos(0, 1), Pos(0, 2), Pos(1, 0), Pos(1, 1), Pos(1, 2), Pos(2, 0), Pos(2, 1), Pos(2, 2)}

  lemma GridIsTiles()
    ensures forall p :: p in Grid <==> InGrid(p)
  {
    forall p | InGrid(p)
      ensures p in Grid
    {
      assert p == Pos(p.row, p.column);
    }
  }

  /** The board's value: who plays, the tiles, and the two turn pointers. */
  datatype Game = Game(player: Player, ai: Player, tiles: map<Pos, Cell>, next: Player, previous: Player)

  /** The toggle `set` and `clear` apply to each turn pointer. */
  function Toggle(g: Game, x: Player): Player {
    if x == g.ai then g.player else g.ai
  }

  /** Both turn pointers name one of the two players. */
  ghost predicate Turns(g: Game) {
    (g.next == g.player || g.next == g.ai) && (g.previous == g.player || g.previous == g.ai)
  }

  // ---------------------------------------------------------------------
  // TicTacToe.choices
  // ---------------------------------------------------------------------

  /** The position of the tile the dict yields k-th: row by row. */
  function TileAt(k: int): Pos {
    if k < 3 then Pos(0, k) else if k < 6 then Pos(1, k - 3) else Pos(2, k - 6)
  }

  /** A tile's place in that order. */
  function Index(p: Pos): int {
    3 * p.row + p.column
  }

  /** Index and TileAt are inverse on the grid. */
  lemma IndexOrder()
    ensures forall p :: InGrid(p) ==> 0 <= Index(p) < 9 && TileAt(Index(p)) == p
  {
    forall p | InGrid(p)
      ensures 0 <= Index(p) < 9 && TileAt(Index(p)) == p
    {
      if p.row == 0 {
      } else if p.row == 1 {
      } else {
      }
    }
  }

  /** The empty tiles from the k-th on, in the dict's order. */
  function ChoicesFrom(t: map<Pos, Cell>, k: nat): seq<Pos>
    requires Tiles(t) && k <= 9
    decreases 9 - k
  {
    if k == 9 then []
    else
      var rest := ChoicesFrom(t, k + 1);
      if t[TileAt(k)] == Empty then [TileAt(k)] + rest else rest
  }

  /** TicTacToe.choices: the empty tiles, row by row. */
  function Choices(t: map<Pos, Cell>): seq<Pos>
    requires Tiles(t)
  {
    ChoicesFrom(t, 0)
  }

  lemma {:induction false} ChoicesFromMeans(t: map<Pos, Cell>, k: nat)
    requires Tiles(t) && k <= 9
    ensures forall p :: p in ChoicesFrom(t, k) <==> InGrid(p) && t[p] == Empty && Index(p) >= k
    ensures forall i, j :: 0 <= i < j < |ChoicesFrom(t, k)| ==> Index(ChoicesFrom(t, k)[i]) < Index(ChoicesFrom(t, k)[j])
    decreases 9 - k
  {
    if k < 9 {
      ChoicesFromMeans(t, k + 1);
      IndexOrder();
    }
  }

  /** choices holds exactly the empty tiles of the grid. */
  lemma ChoicesMeans(t: map<Pos, Cell>)
    requires Tiles(t)
    ensures forall p :: p in Choices(t) <==> InGrid(p) && t[p] == Empty
  {
    ChoicesFromMeans(t, 0);
  }

  /** choices lists the tiles in the dict's order, each once: of any two
      choices, the earlier one comes first in the board's order. */
  lemma ChoicesOrdered(t: map<Pos, Cell>, i: int, j: int)
    requires Tiles(t) && 0 <= i < j < |Choices(t)|
    ensures Index(Choices(t)[i]) < Index(Choices(t)[j])
  {
    ChoicesFromMeans(t, 0);
  }

  /** 1 for an empty tile, 0 for a taken one. */
  function Vacant(t: map<Pos, Cell>, p: Pos): nat
    requires p in t
  {
    if t[p] == Empty then 1 else 0
  }

  /** The number of empty tiles, counted without building the list. */
  function Vacancies(t: map<Pos, Cell>): nat
    requires Tiles(t)
  {
    Vacant(t, Pos(0, 0)) + Vacant(t, Pos(0, 1)) + Vacant(t, Pos(0, 2))
    + Vacant(t, Pos(1, 0)) + Vacant(t, Pos(1, 1)) + Vacant(t, Pos(1, 2))
    + Vacant(t, Pos(2, 0)) + Vacant(t, Pos(2, 1)) + Vacant(t, Pos(2, 2))
  }

  /** choices has one entry per empty tile. */
  lemma VacanciesCount(t: map<Pos, Cell>)
    requires Tiles(t)
    ensures Vacancies(t) == |Choices(t)|
  {
    assert |ChoicesFrom(t, 9)| == 0;
    assert |ChoicesFrom(t, 8)| == Vacant(t, Pos(2, 2));
    assert |ChoicesFrom(t, 7)| == Vacant(t, Pos(2, 1)) + |ChoicesFrom(t, 8)|;
    assert |ChoicesFrom(t, 6)| == Vacant(t, Pos(2, 0)) + |ChoicesFrom(t, 7)|;
    assert |ChoicesFrom(t, 5)| == Vacant(t, Pos(1, 2)) + |ChoicesFrom(t, 6)|;
    assert |ChoicesFrom(t, 4)| == Vacant(t, Pos(1, 1)) + |ChoicesFrom(t, 5)|;
    assert |ChoicesFrom(t, 3)| == Vacant(t, Pos(1, 0)) + |ChoicesFrom(t, 4)|;
    assert |ChoicesFrom(t, 2)| == Vacant(t, Pos(0, 2)) + |ChoicesFrom(t, 3)|;
    assert |ChoicesFrom(t, 1)| == Vacant(t, Pos(0, 1)) + |ChoicesFrom(t, 2)|;
  }

  /** Filling an empty tile leaves one empty tile fewer. */
  lemma VacanciesShrink(t: map<Pos, Cell>, p: Pos, x: Cell)
    requires Tiles(t) && InGrid(p) && t[p] == Empty && x != Empty
    ensures Tiles(t[p := x]) && Vacancies(t[p := x]) == Vacancies(t) - 1
  {
    var u := t[p := x];
    assert Tiles(u);
    forall q | InGrid(q)
      ensures Vacant(u, q) == if q == p then 0 else Vacant(t, q)
    {
    }
    assert p == Pos(p.row, p.column);
    if p.row == 0 {
      assert p == Pos(0, 0) || p == Pos(0, 1) || p == Pos(0, 2);
    } else if p.row == 1 {
      assert p == Pos(1, 0) || p == Pos(1, 1) || p == Pos(1, 2);
    } else {
      assert p == Pos(2, 0) || p == Pos(2, 1) || p == Pos(2, 2);
    }
  }

  /** Emptying a taken tile leaves one empty tile more, and never more
      than nine. */
  lemma VacanciesGrow(t: map<Pos, Cell>, p: Pos)
    requires Tiles(t) && InGrid(p) && t[p] != Empty
    ensures Tiles(t[p := Empty]) && Vacancies(t[p := Empty]) == Vacancies(t) + 1 <= 9
  {
    var u := t[p := Empty];
    assert u[p := t[p]] == t;
    VacanciesShrink(u, p, t[p]);
  }

  // ---------------------------------------------------------------------
  // Tile.completeRow / completeColumn / completeDiagonal and score
  // ---------------------------------------------------------------------

  /** Tile.completeRow: the tile and the three tiles of its row hold the same. */
  function CompleteRow(t: map<Pos, Cell>, p: Pos): bool
    requires Tiles(t) && InGrid(p)
  {
    t[p] == t[Pos(p.row, 0)] == t[Pos(p.row, 1)] == t[Pos(p.row, 2)]
  }

  /** Tile.completeColumn: the same along the tile's column. */
  function CompleteColumn(t: map<Pos, Cell>, p: Pos): bool
    requires Tiles(t) && InGrid(p)
  {
    t[p] == t[Pos(0, p.column)] == t[Pos(1, p.column)] == t[Pos(2, p.column)]
  }

  function MainDiagonal(t: map<Pos, Cell>, x: Cell): bool
    requires Tiles(t)
  {
    x == t[Pos(0, 0)] == t[Pos(1, 1)] == t[Pos(2, 2)]
  }

  function AntiDiagonal(t: map<Pos, Cell>, x: Cell): bool
    requires Tiles(t)
  {
    x == t[Pos(0, 2)] == t[Pos(1, 1)] == t[Pos(2, 0)]
  }

  /** Tile.completeDiagonal as written: a tile with row == column checks the
      main diagonal only, so the centre never looks at the anti-diagonal; a
      tile off both diagonals gets a falsy None. */
  function CompleteDiagonalAsWritten(t: map<Pos, Cell>, p: Pos): bool
    requires Tiles(t) && InGrid(p)
  {
    if p.column - p.row == 0 then MainDiagonal(t, t[p])
    else if p.column + p.row == 2 then AntiDiagonal(t, t[p])
    else false
  }

  /** Tile.completeDiagonal as intended: every diagonal through the tile is
      checked, both of them for the centre. */
  function CompleteDiagonal(t: map<Pos, Cell>, p: Pos): bool
    requires Tiles(t) && InGrid(p)
  {
    (p.column == p.row && MainDiagonal(t, t[p])) || (p.column + p.row == 2 && AntiDiagonal(t, t[p]))
  }

  /** The eight lines of the board. */
  datatype Line = Row(r: int) | Column(c: int) | Main | Anti

  predicate IsLine(l: Line) {
    match l
    case Row(r) => 0 <= r < 3
    case Column(c) => 0 <= c < 3
    case _ => true
  }

  /** The three tiles of a line. */
  function LineTiles(l: Line): set<Pos> {
    match l
    case Row(r) => {Pos(r, 0), Pos(r, 1), Pos(r, 2)}
    case Column(c) => {Pos(0, c), Pos(1, c), Pos(2, c)}
    case Main => {Pos(0, 0), Pos(1, 1), Pos(2, 2)}
    case Anti => {Pos(0, 2), Pos(1, 1), Pos(2, 0)}
  }

  /** Every tile of line l holds x. */
  ghost predicate Filled(t: map<Pos, Cell>, l: Line, x: Cell)
    requires Tiles(t) && IsLine(l)
  {
    forall q :: q in LineTiles(l) ==> q in t && t[q] == x
  }

  /** Some line through p is filled with what p holds: what a winning move
      makes. */
  ghost predicate Completes(t: map<Pos, Cell>, p: Pos)
    requires Tiles(t) && InGrid(p)
  {
    exists l :: IsLine(l) && p in LineTiles(l) && Filled(t, l, t[p])
  }

  /** The lines through a tile: its row, its column, and the diagonals it
      lies on. */
  lemma LinesThrough(p: Pos, l: Line)
    requires InGrid(p) && IsLine(l) && p in LineTiles(l)
    ensures l == Row(p.row) || l == Column(p.column)
      || (l == Main && p.row == p.column) || (l == Anti && p.row + p.column == 2)
  {
  }

  lemma RowMeans(t: map<Pos, Cell>, p: Pos)
    requires Tiles(t) && InGrid(p)
    ensures CompleteRow(t, p) <==> Filled(t, Row(p.row), t[p])
  {
    assert Pos(p.row, 0) in t && Pos(p.row, 1) in t && Pos(p.row, 2) in t;
  }

  lemma ColumnMeans(t: map<Pos, Cell>, p: Pos)
    requires Tiles(t) && InGrid(p)
    ensures CompleteColumn(t, p) <==> Filled(t, Column(p.column), t[p])
  {
    assert Pos(0, p.column) in t && Pos(1, p.column) in t && Pos(2, p.column) in t;
  }

  lemma DiagonalsMean(t: map<Pos, Cell>, x: Cell)
    requires Tiles(t)
    ensures MainDiagonal(t, x) <==> Filled(t, Main, x)
    ensures AntiDiagonal(t, x) <==> Filled(t, Anti, x)
  {
    assert InGrid(Pos(0, 0)) && InGrid(Pos(1, 1)) && InGrid(Pos(2, 2));
    assert InGrid(Pos(0, 2)) && InGrid(Pos(2, 0));
  }

  /** The three checks of score find a complete line through p exactly when
      there is one. */
  lemma CompleteMeans(t: map<Pos, Cell>, p: Pos)
    requires Tiles(t) && InGrid(p)
    ensures CompleteRow(t, p) || CompleteColumn(t, p) || CompleteDiagonal(t, p) <==> Completes(t, p)
  {
    RowMeans(t, p);
    ColumnMeans(t, p);
    DiagonalsMean(t, t[p]);
    if Completes(t, p) {
      var l :| IsLine(l) && p in LineTiles(l) && Filled(t, l, t[p]);
      LinesThrough(p, l);
    } else {
      OnItsLines(p);
    }
  }

  /** A tile lies on its row, its column, and the diagonals through it. */
  lemma OnItsLines(p: Pos)
    requires InGrid(p)
    ensures p in LineTiles(Row(p.row)) && p in LineTiles(Column(p.column))
    ensures p.row == p.column ==> p in LineTiles(Main)
    ensures p.row + p.column == 2 ==> p in LineTiles(Anti)
  {
    assert p == Pos(p.row, p.column);
  }

  /** completeDiagonal as written never claims a line that is not there. */
  lemma AsWrittenSound(t: map<Pos, Cell>, p: Pos)
    requires Tiles(t) && InGrid(p)
    ensures CompleteDiagonalAsWritten(t, p) ==> CompleteDiagonal(t, p)
  {
  }

  /** X on (0,2), (1,1), (2,0) and O on the other six tiles. */
  function AntiDiagonalBoard(x: Player, o: Player): (t: map<Pos, Cell>)
    ensures Tiles(t)
  {
    GridIsTiles();
    map p | p in Grid :: if p.row + p.column == 2 then Taken(x) else Taken(o)
  }

  /** completeDiagonal as written misses an anti-diagonal completed at the
      centre: X's line (0,2), (1,1), (2,0) goes unseen at (1,1), where the
      corrected check finds it, so score calls X's win a draw. */
  lemma AntiDiagonalMissed(x: Player, o: Player)
    requires x != o
    ensures var t := AntiDiagonalBoard(x, o);
      && Completes(t, Pos(1, 1))
      && !CompleteRow(t, Pos(1, 1)) && !CompleteColumn(t, Pos(1, 1))
      && !CompleteDiagonalAsWritten(t, Pos(1, 1))
      && CompleteDiagonal(t, Pos(1, 1))
      && Score(t, Pos(1, 1), None) == Some(0)
      && ScoreIntended(t, Pos(1, 1), None) == Some(1)
  {
    var t := AntiDiagonalBoard(x, o);
    assert t[Pos(1, 1)] == Taken(x) && t[Pos(0, 2)] == Taken(x) && t[Pos(2, 0)] == Taken(x);
    assert t[Pos(1, 0)] == Taken(o) && t[Pos(0, 1)] == Taken(o) && t[Pos(0, 0)] == Taken(o);
    CompleteMeans(t, Pos(1, 1));
    NoChoicesFull(t);
  }

  /** The lines score looks at through p, as completeDiagonal is written:
      every line through p except the anti-diagonal at the centre. */
  predicate Checked(p: Pos, l: Line) {
    p in LineTiles(l) && (l == Anti ==> p.row != p.column)
  }

  /** Some line score looks at through p is filled with what p holds. */
  ghost predicate ScoredLine(t: map<Pos, Cell>, p: Pos)
    requires Tiles(t) && InGrid(p)
  {
    exists l :: IsLine(l) && Checked(p, l) && Filled(t, l, t[p])
  }

  /** The three checks as written find a complete line through p exactly
      when a line they look at is filled. */
  lemma AsWrittenMeans(t: map<Pos, Cell>, p: Pos)
    requires Tiles(t) && InGrid(p)
    ensures CompleteRow(t, p) || CompleteColumn(t, p) || CompleteDiagonalAsWritten(t, p) <==> ScoredLine(t, p)
  {
    RowMeans(t, p);
    ColumnMeans(t, p);
    DiagonalsMean(t, t[p]);
    if ScoredLine(t, p) {
      var l :| IsLine(l) && Checked(p, l) && Filled(t, l, t[p]);
      LinesThrough(p, l);
    } else {
      OnItsLines(p);
      assert Checked(p, Row(p.row)) && Checked(p, Column(p.column));
    }
  }

  /** The only complete line score does not see is the anti-diagonal,
      completed at the centre. */
  lemma ScoredUnlessCentreAnti(t: map<Pos, Cell>, p: Pos)
    requires Tiles(t) && InGrid(p)
    ensures ScoredLine(t, p) ==> Completes(t, p)
    ensures Completes(t, p) && !ScoredLine(t, p) ==> p == Pos(1, 1) && Filled(t, Anti, t[p])
  {
    if Completes(t, p) && !ScoredLine(t, p) {
      var l :| IsLine(l) && p in LineTiles(l) && Filled(t, l, t[p]);
      assert !Checked(p, l);
      LinesThrough(p, l);
      assert p == Pos(p.row, p.column);
    }
  }

  /** TicTacToe.score for the tile at p, relative to `who` (the tile's owner
      when None): None for an empty tile, +1 or -1 when the checks as
      written find a complete line, 0 on a full board, None otherwise. */
  function Score(t: map<Pos, Cell>, p: Pos, who: Option<Player>): Option<int>
    requires Tiles(t) && InGrid(p)
  {
    match t[p]
    case Empty => None
    case Taken(owner) =>
      var judge := if who.Some? then who.value else owner;
      if CompleteRow(t, p) || CompleteColumn(t, p) || CompleteDiagonalAsWritten(t, p) then
        Some(if owner == judge then 1 else -1)
      else if Choices(t) == [] then Some(0)
      else None
  }

  /** No tile is left empty. */
  ghost predicate Full(t: map<Pos, Cell>)
    requires Tiles(t)
  {
    forall q :: InGrid(q) ==> t[q] != Empty
  }

  /** What score means, stated without the three checks. */
  ghost function Verdict(t: map<Pos, Cell>, p: Pos, who: Option<Player>): Option<int>
    requires Tiles(t) && InGrid(p)
  {
    match t[p]
    case Empty => None
    case Taken(owner) =>
      if ScoredLine(t, p) then Some(if who.None? || who.value == owner then 1 else -1)
      else if Full(t) then Some(0)
      else None
  }

  /** choices is empty exactly when the board is full. */
  lemma NoChoicesFull(t: map<Pos, Cell>)
    requires Tiles(t)
    ensures Choices(t) == [] <==> Full(t)
  {
    ChoicesMeans(t);
    if Choices(t) != [] {
      assert Choices(t)[0] in Choices(t);
    }
  }

  /** score reports the verdict: a win or loss exactly when the tile fills
      a line the checks look at, a draw exactly when no tile is left,
      nothing otherwise. */
  lemma ScoreMeaning(t: map<Pos, Cell>, p: Pos, who: Option<Player>)
    requires Tiles(t) && InGrid(p)
    ensures Score(t, p, who) == Verdict(t, p, who)
  {
    AsWrittenMeans(t, p);
    NoChoicesFull(t);
  }

  /** score as intended: both diagonals are checked at the centre. */
  function ScoreIntended(t: map<Pos, Cell>, p: Pos, who: Option<Player>): Option<int>
    requires Tiles(t) && InGrid(p)
  {
    match t[p]
    case Empty => None
    case Taken(owner) =>
      var judge := if who.Some? then who.value else owner;
      if CompleteRow(t, p) || CompleteColumn(t, p) || CompleteDiagonal(t, p) then
        Some(if owner == judge then 1 else -1)
      else if Choices(t) == [] then Some(0)
      else None
  }

  /** The corrected score reports a win or loss exactly when the tile
      completes any line through it, a draw exactly when no tile is left. */
  lemma ScoreIntendedMeaning(t: map<Pos, Cell>, p: Pos, who: Option<Player>)
    requires Tiles(t) && InGrid(p)
    ensures ScoreIntended(t, p, who) == match t[p]
      case Empty => None
      case Taken(owner) =>
        if Completes(t, p) then Some(if who.None? || who.value == owner then 1 else -1)
        else if Full(t) then Some(0)
        else None
  {
    CompleteMeans(t, p);
    NoChoicesFull(t);
  }

  /** X on (0,2), (2,0) and the centre, O on (0,0) and (0,1): X has just
      completed the anti-diagonal at the centre. */
  function CentreWinBoard(x: Player, o: Player): (t: map<Pos, Cell>)
    ensures Tiles(t)
  {
    GridIsTiles();
    map p | p in Grid ::
      if p.row + p.column == 2 then Taken(x)
      else if p == Pos(0, 0) || p == Pos(0, 1) then Taken(o)
      else Empty
  }

  /** On that board the game is won, yet score as written reports it
      undecided; the corrected score reports the win. */
  lemma CentreWinUnscored(x: Player, o: Player)
    requires x != o
    ensures var t := CentreWinBoard(x, o);
      && Completes(t, Pos(1, 1))
      && Score(t, Pos(1, 1), None) == None
      && ScoreIntended(t, Pos(1, 1), None) == Some(1)
  {
    var t := CentreWinBoard(x, o);
    assert t[Pos(1, 1)] == Taken(x) && t[Pos(0, 2)] == Taken(x) && t[Pos(2, 0)] == Taken(x);
    assert t[Pos(1, 0)] == Empty && t[Pos(0, 1)] == Taken(o) && t[Pos(0, 0)] == Taken(o);
    assert t[Pos(2, 1)] == Empty && t[Pos(1, 2)] == Empty && t[Pos(2, 2)] == Empty;
    CompleteMeans(t, Pos(1, 1));
    NoChoicesFull(t);
  }

  // ---------------------------------------------------------------------
  // TicTacToe.set / clear on values
  // ---------------------------------------------------------------------

  /** TicTacToe.set on an empty tile: the tile takes nextPlayer and both
      turn pointers toggle. */
  function SetTile(g: Game, p: Pos): (r: Game)
    requires Tiles(g.tiles) && InGrid(p)
    ensures Tiles(r.tiles)
  {
    g.(tiles := g.tiles[p := Taken(g.next)], next := Toggle(g, g.next), previous := Toggle(g, g.previous))
  }

  /** TicTacToe.clear on an occupied tile: the tile is emptied and both turn
      pointers toggle. */
  function ClearTile(g: Game, p: Pos): (r: Game)
    requires Tiles(g.tiles) && InGrid(p)
    ensures Tiles(r.tiles)
  {
    g.(tiles := g.tiles[p := Empty], next := Toggle(g, g.next), previous := Toggle(g, g.previous))
  }

  /** With both pointers on a player, a toggle hands the turn to the other
      player, and two toggles give it back. */
  lemma ToggleTwice(g: Game, x: Player)
    requires x == g.player || x == g.ai
    ensures Toggle(g, x) == g.player || Toggle(g, x) == g.ai
    ensures Toggle(g, Toggle(g, x)) == x
    ensures g.player != g.ai ==> Toggle(g, x) != x
  {
  }

  /** set followed by clear on an empty tile gives back the board and both
      turn pointers. */
  lemma SetThenClear(g: Game, p: Pos)
    requires Tiles(g.tiles) && InGrid(p) && g.tiles[p] == Empty && Turns(g)
    ensures Turns(SetTile(g, p))
    ensures ClearTile(SetTile(g, p), p) == g
  {
    ToggleTwice(g, g.next);
    ToggleTwice(g, g.previous);
    assert ClearTile(SetTile(g, p), p).tiles == g.tiles;
  }

  // ---------------------------------------------------------------------
  // TicTacToe.__repr__ and __eq__
  // ---------------------------------------------------------------------

  const EmptyGlyph: char := '\U{2610}'

  /** str(tile): the owner's symbol, or the empty box. */
  function Glyph(c: Cell): char {
    match c
    case Empty => EmptyGlyph
    case Taken(owner) => owner.symbol
  }

  /** TicTacToe.__repr__: three lines of three glyphs, each line ended by a
      newline. */
  function Render(t: map<Pos, Cell>): string
    requires Tiles(t)
  {
    [ Glyph(t[Pos(0, 0)]), Glyph(t[Pos(0, 1)]), Glyph(t[Pos(0, 2)]), '\n',
      Glyph(t[Pos(1, 0)]), Glyph(t[Pos(1, 1)]), Glyph(t[Pos(1, 2)]), '\n',
      Glyph(t[Pos(2, 0)]), Glyph(t[Pos(2, 1)]), Glyph(t[Pos(2, 2)]), '\n' ]
  }

  /** Where the glyph of each tile sits in the rendering. */
  lemma RenderAt(t: map<Pos, Cell>)
    requires Tiles(t)
    ensures |Render(t)| == 12
    ensures forall p :: InGrid(p) ==> Render(t)[4 * p.row + p.column] == Glyph(t[p])
    ensures forall r :: 0 <= r < 3 ==> Render(t)[4 * r + 3] == '\n'
  {
    forall p | InGrid(p)
      ensures Render(t)[4 * p.row + p.column] == Glyph(t[p])
    {
      assert p == Pos(p.row, p.column);
    }
  }

  /** Two boards render alike exactly when every tile shows the same glyph:
      TicTacToe.__eq__ compares occupancy as drawn, and nothing else. */
  lemma RenderMeans(t: map<Pos, Cell>, u: map<Pos, Cell>)
    requires Tiles(t) && Tiles(u)
    ensures Render(t) == Render(u) <==> forall p :: InGrid(p) ==> Glyph(t[p]) == Glyph(u[p])
  {
    RenderAt(t);
    RenderAt(u);
    if forall p :: InGrid(p) ==> Glyph(t[p]) == Glyph(u[p]) {
      forall i | 0 <= i < 12
        ensures Render(t)[i] == Render(u)[i]
      {
        if i % 4 < 3 {
          assert Pos(i / 4, i % 4) == Pos(i / 4, i % 4) && InGrid(Pos(i / 4, i % 4));
        }
      }
    }
  }

  /** Tiles hold the empty box or one of two players drawn with distinct
      symbols other than the box. */
  ghost predicate Drawable(t: map<Pos, Cell>, player: Player, ai: Player) {
    && player.symbol != ai.symbol && player.symbol != EmptyGlyph && ai.symbol != EmptyGlyph
    && forall p :: p in t ==> t[p] in {Empty, Taken(player), Taken(ai)}
  }

  /** With drawable tiles the rendering is one-to-one: the memo table of the
      Monte Carlo search, keyed by renderings, tells boards apart. */
  lemma RenderInjective(t: map<Pos, Cell>, u: map<Pos, Cell>, player: Player, ai: Player)
    requires Tiles(t) && Tiles(u) && Drawable(t, player, ai) && Drawable(u, player, ai)
    ensures Render(t) == Render(u) <==> t == u
  {
    RenderMeans(t, u);
    if Render(t) == Render(u) {
      forall p | InGrid(p)
        ensures t[p] == u[p]
      {
        assert Glyph(t[p]) == Glyph(u[p]);
      }
    }
  }

  // ---------------------------------------------------------------------
  // The mutable board
  // ---------------------------------------------------------------------

  /** The occupant `build` reads from a symbol. */
  function Decode(player: Player, ai: Player, symbol: char): Cell {
    if symbol == player.symbol then Taken(player)
    else if symbol == ai.symbol then Taken(ai)
    else Empty
  }

  /** Whether `build` read the tile at p from `symbols`. */
  predicate Drawn(symbols: seq<seq<char>>, row: int, column: int, p: Pos) {
    (0 <= p.row < row && p.row < |symbols| && 0 <= p.column < |symbols[p.row]|)
    || (p.row == row && 0 <= p.row < |symbols| && 0 <= p.column < column && p.column < |symbols[p.row]|)
  }

  /** What the tile at p holds once `build` has read up to (row, column). */
  function Sketched(symbols: seq<seq<char>>, player: Player, ai: Player, row: int, column: int, p: Pos): Cell {
    if Drawn(symbols, row, column, p) then Decode(player, ai, symbols[p.row][p.column]) else Empty
  }

  /** The tiles `build` makes from `symbols`: a tile the rows name holds
      whom its symbol denotes, any other tile is empty. */
  function BuiltTiles(symbols: seq<seq<char>>, player: Player, ai: Player): (t: map<Pos, Cell>)
    ensures Tiles(t)
  {
    GridIsTiles();
    map p | p in Grid :: Sketched(symbols, player, ai, |symbols|, 0, p)
  }

  class TicTacToe {
    const player: Player
    const ai: Player
    var tiles: map<Pos, Cell>
    var nextPlayer: Player
    var previousPlayer: Player

    function Model(): Game
      reads this
    {
      Game(player, ai, tiles, nextPlayer, previousPlayer)
    }

    ghost predicate Valid()
      reads this
    {
      Tiles(tiles)
    }

    /** TicTacToe(player, ai): nine empty tiles, the player to move. */
    constructor (player: Player, ai: Player)
      ensures Valid() && this.player == player && this.ai == ai
      ensures nextPlayer == player && previousPlayer == ai
      ensures forall p :: p in tiles ==> tiles[p] == Empty
    {
      this.player, this.ai := player, ai;
      nextPlayer, previousPlayer := player, ai;
      var t: map<Pos, Cell> := map[];
      var row := 0;
      while row < 3
        invariant 0 <= row <= 3
        invariant forall p :: p in t <==> 0 <= p.row < row && 0 <= p.column < 3
        invariant forall p :: p in t ==> t[p] == Empty
      {
        var column := 0;
        while column < 3
          invariant 0 <= column <= 3
          invariant forall p :: p in t <==> (0 <= p.row < row && 0 <= p.column < 3) || (p.row == row && 0 <= p.column < column)
          invariant forall p :: p in t ==> t[p] == Empty
        {
          t := t[Pos(row, column) := Empty];
          column := column + 1;
        }
        row := row + 1;
      }
      tiles := t;
    }

    /** TicTacToe.set: raises on an occupied tile, leaving everything as it
        was; otherwise the tile takes nextPlayer and both pointers toggle. */
    method Set(p: Pos) returns (outcome: Outcome)
      requires Valid() && InGrid(p)
      modifies this
      ensures Valid()
      ensures outcome.Fail? <==> old(tiles)[p] != Empty
      ensures outcome.Fail? ==> outcome == Fail(InconsistentState) && Model() == old(Model())
      ensures outcome.Pass? ==> Model() == SetTile(old(Model()), p)
    {
      if tiles[p] != Empty {
        return Fail(InconsistentState);
      }
      tiles := tiles[p := Taken(nextPlayer)];
      nextPlayer := if nextPlayer == ai then player else ai;
      previousPlayer := if previousPlayer == ai then player else ai;
      outcome := Pass;
    }

    /** TicTacToe.clear: raises on an empty tile, leaving everything as it
        was; otherwise the tile is emptied and both pointers toggle. */
    method Clear(p: Pos) returns (outcome: Outcome)
      requires Valid() && InGrid(p)
      modifies this
      ensures Valid()
      ensures outcome.Fail? <==> old(tiles)[p] == Empty
      ensures outcome.Fail? ==> outcome == Fail(InconsistentState) && Model() == old(Model())
      ensures outcome.Pass? ==> Model() == ClearTile(old(Model()), p)
    {
      if tiles[p] == Empty {
        return Fail(InconsistentState);
      }
      tiles := tiles[p := Empty];
      nextPlayer := if nextPlayer == ai then player else ai;
      previousPlayer := if previousPlayer == ai then player else ai;
      outcome := Pass;
    }

    /** TicTacToe.reset: every tile emptied, the player to move. The players'
        own reset hooks are not part of this model. */
    method Reset()
      requires Valid()
      modifies this
      ensures Valid() && nextPlayer == player && previousPlayer == ai
      ensures forall p :: p in tiles ==> tiles[p] == Empty
    {
      tiles := map p | p in tiles :: Empty;
      nextPlayer := player;
      previousPlayer := ai;
    }

    /** TicTacToe.build: reset, then each tile named by `symbols` (row by
        row) takes the player, the AI or nobody; nextPlayer is the given
        player and previousPlayer toggles from the reset's AI to the player. */
    method Build(symbols: seq<seq<char>>, next: Player)
      requires Valid() && |symbols| <= 3
      requires forall r :: 0 <= r < |symbols| ==> |symbols[r]| <= 3
      modifies this
      ensures Valid() && Model() == Game(player, ai, BuiltTiles(symbols, player, ai), next, player)
    {
      Reset();
      var t := tiles;
      var row := 0;
      while row < |symbols|
        invariant 0 <= row <= |symbols| && Tiles(t)
        invariant forall p :: p in t ==> t[p] == Sketched(symbols, player, ai, row, 0, p)
      {
        var column := 0;
        while column < |symbols[row]|
          invariant 0 <= column <= |symbols[row]| && Tiles(t)
          invariant forall p :: p in t ==> t[p] == Sketched(symbols, player, ai, row, column, p)
        {
          t := t[Pos(row, column) := Decode(player, ai, symbols[row][column])];
          column := column + 1;
        }
        row := row + 1;
      }
      GridIsTiles();
      assert t == BuiltTiles(symbols, player, ai);
      tiles := t;
      nextPlayer := next;
      previousPlayer := if previousPlayer == ai then player else ai;
    }

    /** TicTacToe.__eq__: two boards are equal when they render alike. */
    function Equals(other: TicTacToe): (same: bool)
      requires Valid() && other.Valid()
      reads this, other
      ensures same <==> forall p :: InGrid(p) ==> Glyph(tiles[p]) == Glyph(other.tiles[p])
    {
      RenderMeans(tiles, other.tiles);
      Render(tiles) == Render(other.tiles)
    }
  }
}
