/**
  The four-in-a-row board of fourplay.py: a rows x columns grid of discs
  (the source's dict keyed by (row, column)), and the Frontier, one entry per
  column naming the lowest cell a disc can drop into, or None for a full column.

  The board's value is `Board`; the classes `FourPlay` and `Frontier` hold the
  same data in mutable fields and their methods are specified by the pure
  functions on `Board` below.
 */
module FourPlayBoard {
  import opened Common

  /** A step (row, column) used to walk along a line of discs. */
  datatype Dir = Dir(dr: int, dc: int)

  predicate IsDirection(d: Dir) {
    -1 <= d.dr <= 1 && -1 <= d.dc <= 1 && (d.dr != 0 || d.dc != 0)
  }

  function Reverse(d: Dir): Dir {
    Dir(-d.dr, -d.dc)
  }

  /** k * t for a step component k in {-1, 0, 1}, written without multiplication. */
  function Scale(k: int, t: int): int {
    if k == 1 then t else if k == -1 then -t else 0
  }

  /** The position t steps away from p in direction d (t may be negative). */
  function Shift(p: Pos, d: Dir, t: int): Pos {
    Pos(p.row + Scale(d.dr, t), p.column + Scale(d.dc, t))
  }

  /** A frontier entry is the row of the droppable disc of its column, or None. */
  type Entry = Option<nat>

  datatype Board = Board(rows: nat, columns: nat, cells: map<Pos, Cell>, frontier: seq<Entry>)

  predicate InGrid(rows: nat, columns: nat, p: Pos) {
    0 <= p.row < rows && 0 <= p.column < columns
  }

  /** The dict holds exactly one disc per grid position. */
  ghost predicate GridKeys(rows: nat, columns: nat, cells: map<Pos, Cell>) {
    forall p :: p in cells <==> InGrid(rows, columns, p)
  }

  ghost predicate ValidBoard(b: Board) {
    && GridKeys(b.rows, b.columns, b.cells)
    && |b.frontier| == b.columns
    && forall c :: 0 <= c < |b.frontier| && b.frontier[c].Some? ==> b.frontier[c].value < b.rows
  }

  /** Every cell at or above a column's frontier entry is empty: what the
      search relies on when it drops a disc on an entry and lifts it again. */
  ghost predicate OpenAbove(b: Board)
    requires ValidBoard(b)
  {
    forall p :: p in b.cells && b.frontier[p.column].Some? && p.row <= b.frontier[p.column].value ==> b.cells[p] == Empty
  }

  // ---------------------------------------------------------------------
  // Disc.neighbor and Disc.crawl
  // ---------------------------------------------------------------------

  /** The disc one step away in direction d, or None off the board. */
  function Neighbor(cells: map<Pos, Cell>, p: Pos, d: Dir): Option<Pos> {
    var q := Pos(p.row + d.dr, p.column + d.dc);
    if q in cells then Some(q) else None
  }

  /** Steps left before a walk from p in direction d leaves the grid. */
  function Reach(rows: nat, columns: nat, p: Pos, d: Dir): nat {
    (if d.dr == 1 && p.row < rows then rows - p.row else if d.dr == -1 && p.row >= 0 then p.row + 1 else 0) +
    (if d.dc == 1 && p.column < columns then columns - p.column else if d.dc == -1 && p.column >= 0 then p.column + 1 else 0)
  }

  /** Disc.crawl: how many discs in a row, starting at p and walking in
      direction d, hold `who`. */
  function Crawl(rows: nat, columns: nat, cells: map<Pos, Cell>, p: Pos, d: Dir, who: Cell): nat
    requires GridKeys(rows, columns, cells) && p in cells && IsDirection(d)
    decreases Reach(rows, columns, p, d)
  {
    if cells[p] == who then
      match Neighbor(cells, p, d)
      case Some(q) => Crawl(rows, columns, cells, q, d, who) + 1
      case None => 1
    else 0
  }

  predicate Owns(cells: map<Pos, Cell>, q: Pos, who: Cell) {
    q in cells && cells[q] == who
  }

  /** Walking t steps from p is walking t - 1 steps from p's neighbour. */
  lemma ShiftStep(p: Pos, d: Dir, t: int)
    requires IsDirection(d)
    ensures Shift(p, d, t) == Shift(Pos(p.row + d.dr, p.column + d.dc), d, t - 1)
  {
  }

  /** Crawl counts exactly the unbroken run of `who` discs from p towards
      the edge: every cell of the run holds `who`, and the first cell past it
      is off the board or holds something else. */
  lemma {:induction false} CrawlRun(rows: nat, columns: nat, cells: map<Pos, Cell>, p: Pos, d: Dir, who: Cell)
    requires GridKeys(rows, columns, cells) && p in cells && IsDirection(d)
    ensures forall t :: 0 <= t < Crawl(rows, columns, cells, p, d, who) ==> Owns(cells, Shift(p, d, t), who)
    ensures !Owns(cells, Shift(p, d, Crawl(rows, columns, cells, p, d, who)), who)
    decreases Reach(rows, columns, p, d)
  {
    var n := Crawl(rows, columns, cells, p, d, who);
    assert Shift(p, d, 0) == p;
    if cells[p] == who {
      var q := Pos(p.row + d.dr, p.column + d.dc);
      ShiftStep(p, d, 1);
      if q in cells {
        CrawlRun(rows, columns, cells, q, d, who);
        assert n == Crawl(rows, columns, cells, q, d, who) + 1;
        forall t | 1 <= t < n
          ensures Owns(cells, Shift(p, d, t), who)
        {
          ShiftStep(p, d, t);
        }
        ShiftStep(p, d, n);
      }
    }
  }

  /** A run of k cells holding `who` from p makes Crawl at least k. */
  lemma CrawlAtLeast(rows: nat, columns: nat, cells: map<Pos, Cell>, p: Pos, d: Dir, who: Cell, k: nat)
    requires GridKeys(rows, columns, cells) && p in cells && IsDirection(d)
    requires forall t :: 0 <= t < k ==> Owns(cells, Shift(p, d, t), who)
    ensures Crawl(rows, columns, cells, p, d, who) >= k
  {
    CrawlRun(rows, columns, cells, p, d, who);
  }

  // ---------------------------------------------------------------------
  // Frontier (the pure view of Frontier.increase/decrease/choices/reset)
  // ---------------------------------------------------------------------

  /** The non-None entries of the frontier from column c on, in column order. */
  function ChoicesFrom(entries: seq<Entry>, c: nat): (r: seq<Pos>)
    requires c <= |entries|
    ensures forall p :: p in r <==> c <= p.column < |entries| && entries[p.column] == Some(p.row)
    decreases |entries| - c
  {
    if c == |entries| then []
    else
      var rest := ChoicesFrom(entries, c + 1);
      match entries[c]
      case Some(row) => [Pos(row, c)] + rest
      case None => rest
  }

  /** Frontier.choices before shuffling: the droppable discs. */
  function ChoicesOf(entries: seq<Entry>): (r: seq<Pos>)
    ensures forall p :: p in r <==> 0 <= p.column < |entries| && entries[p.column] == Some(p.row)
  {
    ChoicesFrom(entries, 0)
  }

  lemma {:induction false} ChoicesFromOrdered(entries: seq<Entry>, c: nat)
    requires c <= |entries|
    ensures forall i :: 0 <= i < |ChoicesFrom(entries, c)| ==> c <= ChoicesFrom(entries, c)[i].column
    ensures forall i, j :: 0 <= i < j < |ChoicesFrom(entries, c)| ==>
      ChoicesFrom(entries, c)[i].column < ChoicesFrom(entries, c)[j].column
    decreases |entries| - c
  {
    if c < |entries| {
      ChoicesFromOrdered(entries, c + 1);
    }
  }

  /** The droppable discs lie in strictly increasing columns: at most one per
      column, and no disc twice. */
  lemma ChoicesOrdered(entries: seq<Entry>)
    ensures forall i, j :: 0 <= i < j < |ChoicesOf(entries)| ==> ChoicesOf(entries)[i].column < ChoicesOf(entries)[j].column
  {
    ChoicesFromOrdered(entries, 0);
  }

  /** A permutation of a list of discs holds the same discs. */
  lemma SameChoices(xs: seq<Pos>, ys: seq<Pos>)
    requires multiset(xs) == multiset(ys)
    ensures forall c :: c in xs <==> c in ys
  {
    forall c
      ensures c in xs <==> c in ys
    {
      assert c in xs <==> c in multiset(xs);
      assert c in ys <==> c in multiset(ys);
    }
  }

  /** Every droppable disc is a disc of the board. */
  lemma ChoicesOnBoard(b: Board)
    requires ValidBoard(b)
    ensures forall p :: p in ChoicesOf(b.frontier) ==> p in b.cells
  {
  }

  /** Frontier.increase: the entry of `column` moves to the disc above it, or
      to None when it was on row 0; a full column stays full. */
  function Raised(b: Board, column: int): (r: seq<Entry>)
    requires ValidBoard(b) && 0 <= column < b.columns
    ensures |r| == b.columns && forall c :: 0 <= c < b.columns && c != column ==> r[c] == b.frontier[c]
    ensures r[column].Some? ==> b.frontier[column].Some? && r[column].value + 1 == b.frontier[column].value
  {
    match b.frontier[column]
    case None => b.frontier
    case Some(row) =>
      b.frontier[column := if Pos(row - 1, column) in b.cells then Some(row - 1) else None]
  }

  /** Frontier.decrease: a full column gets its top disc back; otherwise the
      entry moves to the disc below it, or None off the bottom row. */
  function Lowered(b: Board, column: int): (r: seq<Entry>)
    requires ValidBoard(b) && 0 <= column < b.columns && b.rows > 0
    ensures |r| == b.columns && forall c :: 0 <= c < b.columns && c != column ==> r[c] == b.frontier[c]
    ensures r[column].Some? ==> 0 <= r[column].value < b.rows
    ensures b.frontier[column].Some? && r[column].Some? ==> r[column].value == b.frontier[column].value + 1
  {
    match b.frontier[column]
    case None => b.frontier[column := Some(0)]
    case Some(row) =>
      b.frontier[column := if Pos(row + 1, column) in b.cells then Some(row + 1) else None]
  }

  /** FourPlay.set: the disc gets its player and the column's entry is raised. */
  function SetDisc(b: Board, p: Pos, who: Player): (r: Board)
    requires ValidBoard(b) && p in b.cells
    ensures ValidBoard(r) && r.cells.Keys == b.cells.Keys
  {
    var placed := b.(cells := b.cells[p := Taken(who)]);
    placed.(frontier := Raised(placed, p.column))
  }

  /** FourPlay.clear: the disc is emptied and the column's entry is lowered. */
  function ClearDisc(b: Board, p: Pos): (r: Board)
    requires ValidBoard(b) && p in b.cells
    ensures ValidBoard(r) && r.cells.Keys == b.cells.Keys
  {
    var emptied := b.(cells := b.cells[p := Empty]);
    emptied.(frontier := Lowered(emptied, p.column))
  }

  /** set followed by clear on an empty frontier disc gives back the board. */
  lemma SetThenClear(b: Board, p: Pos, who: Player)
    requires ValidBoard(b) && p in b.cells && b.cells[p] == Empty
    requires b.frontier[p.column] == Some(p.row)
    ensures ClearDisc(SetDisc(b, p, who), p) == b
  {
    var after := ClearDisc(SetDisc(b, p, who), p);
    assert after.cells == b.cells;
    assert after.frontier == b.frontier;
  }

  /** Dropping a disc on a frontier entry keeps every cell at or above every
      entry empty. */
  lemma SetKeepsOpenAbove(b: Board, p: Pos, who: Player)
    requires ValidBoard(b) && OpenAbove(b) && p in ChoicesOf(b.frontier)
    ensures OpenAbove(SetDisc(b, p, who))
  {
    var after := SetDisc(b, p, who);
    forall q | q in after.cells && after.frontier[q.column].Some? && q.row <= after.frontier[q.column].value
      ensures after.cells[q] == Empty
    {
      if q.column == p.column {
        assert q.row <= p.row - 1;
      }
    }
  }

  // ---------------------------------------------------------------------
  // Gravity: what Frontier.reset computes
  // ---------------------------------------------------------------------

  /** The number of empty cells in column c from row r down to the first
      occupied cell or the bottom edge. */
  function EmptyRun(rows: nat, columns: nat, cells: map<Pos, Cell>, c: int, r: nat): (n: nat)
    requires GridKeys(rows, columns, cells) && 0 <= c < columns && r <= rows
    ensures r + n <= rows
    ensures forall k :: r <= k < r + n ==> cells[Pos(k, c)] == Empty
    ensures r + n == rows || cells[Pos(r + n, c)] != Empty
    decreases rows - r
  {
    if r < rows && cells[Pos(r, c)] == Empty then 1 + EmptyRun(rows, columns, cells, c, r + 1) else 0
  }

  /** The three facts EmptyRun ensures pin its value down: a run of n empty
      cells from the top, stopped by the edge or an occupied cell. */
  lemma {:induction false} EmptyRunFrom(rows: nat, columns: nat, cells: map<Pos, Cell>, c: int, n: nat, r: nat)
    requires GridKeys(rows, columns, cells) && 0 <= c < columns && r <= n <= rows
    requires forall k :: r <= k < n ==> cells[Pos(k, c)] == Empty
    requires n == rows || cells[Pos(n, c)] != Empty
    ensures EmptyRun(rows, columns, cells, c, r) == n - r
    decreases n - r
  {
    if r < n {
      EmptyRunFrom(rows, columns, cells, c, n, r + 1);
    }
  }

  lemma EmptyRunUnique(rows: nat, columns: nat, cells: map<Pos, Cell>, c: int, n: nat)
    requires GridKeys(rows, columns, cells) && 0 <= c < columns && n <= rows
    requires forall k :: 0 <= k < n ==> cells[Pos(k, c)] == Empty
    requires n == rows || cells[Pos(n, c)] != Empty
    ensures EmptyRun(rows, columns, cells, c, 0) == n
  {
    EmptyRunFrom(rows, columns, cells, c, n, 0);
  }

  /** EmptyRun of a column depends only on that column's cells. */
  lemma EmptyRunFrame(rows: nat, columns: nat, cells: map<Pos, Cell>, cells': map<Pos, Cell>, c: int)
    requires GridKeys(rows, columns, cells) && GridKeys(rows, columns, cells') && 0 <= c < columns
    requires forall k :: 0 <= k < rows ==> cells[Pos(k, c)] == cells'[Pos(k, c)]
    ensures EmptyRun(rows, columns, cells', c, 0) == EmptyRun(rows, columns, cells, c, 0)
  {
    EmptyRunUnique(rows, columns, cells', c, EmptyRun(rows, columns, cells, c, 0));
  }

  /** The entry Frontier.reset gives column c: the last empty cell of the
      column's top run of empty cells, or None when row 0 is occupied. */
  function TopEntry(rows: nat, columns: nat, cells: map<Pos, Cell>, c: int): Entry
    requires GridKeys(rows, columns, cells) && 0 <= c < columns
  {
    var n := EmptyRun(rows, columns, cells, c, 0);
    if n == 0 then None else Some(n - 1)
  }

  /** The frontier as Frontier.reset leaves it. */
  ghost predicate FrontierReset(b: Board)
    requires GridKeys(b.rows, b.columns, b.cells)
  {
    |b.frontier| == b.columns &&
    forall c :: 0 <= c < b.columns ==> b.frontier[c] == TopEntry(b.rows, b.columns, b.cells, c)
  }

  /** A freshly reset frontier is a valid frontier with nothing but empty
      cells at or above its entries. */
  lemma ResetIsOpenAbove(b: Board)
    requires GridKeys(b.rows, b.columns, b.cells) && FrontierReset(b)
    ensures ValidBoard(b) && OpenAbove(b)
  {
    forall c | 0 <= c < |b.frontier| && b.frontier[c].Some?
      ensures b.frontier[c].value < b.rows
    {
      var n := EmptyRun(b.rows, b.columns, b.cells, c, 0);
    }
    forall q | q in b.cells && b.frontier[q.column].Some? && q.row <= b.frontier[q.column].value
      ensures b.cells[q] == Empty
    {
      var n := EmptyRun(b.rows, b.columns, b.cells, q.column, 0);
      assert q == Pos(q.row, q.column);
    }
  }

  /** Below the top run of empty cells of column c every cell is occupied. */
  ghost predicate Packed(rows: nat, columns: nat, cells: map<Pos, Cell>, c: int)
    requires GridKeys(rows, columns, cells) && 0 <= c < columns
  {
    forall k :: EmptyRun(rows, columns, cells, c, 0) <= k < rows ==> cells[Pos(k, c)] != Empty
  }

  /** No disc floats, and the frontier is what Frontier.reset would compute. */
  ghost predicate Settled(b: Board)
    requires GridKeys(b.rows, b.columns, b.cells)
  {
    FrontierReset(b) && forall c :: 0 <= c < b.columns ==> Packed(b.rows, b.columns, b.cells, c)
  }

  /** Changing one cell leaves the empty run and packing of the other
      columns alone. */
  lemma OtherColumnsUnchanged(rows: nat, columns: nat, cells: map<Pos, Cell>, p: Pos, x: Cell, c: int)
    requires GridKeys(rows, columns, cells) && p in cells && 0 <= c < columns && c != p.column
    ensures GridKeys(rows, columns, cells[p := x])
    ensures EmptyRun(rows, columns, cells[p := x], c, 0) == EmptyRun(rows, columns, cells, c, 0)
    ensures Packed(rows, columns, cells[p := x], c) == Packed(rows, columns, cells, c)
  {
    EmptyRunFrame(rows, columns, cells, cells[p := x], c);
  }

  /** Changing one cell of a settled board leaves every other column
      settled. */
  lemma OtherColumnsSettled(b: Board, p: Pos, x: Cell)
    requires ValidBoard(b) && Settled(b) && p in b.cells
    ensures GridKeys(b.rows, b.columns, b.cells[p := x])
    ensures forall c :: 0 <= c < b.columns && c != p.column ==>
      && b.frontier[c] == TopEntry(b.rows, b.columns, b.cells[p := x], c)
      && Packed(b.rows, b.columns, b.cells[p := x], c)
  {
    forall c | 0 <= c < b.columns && c != p.column
      ensures b.frontier[c] == TopEntry(b.rows, b.columns, b.cells[p := x], c)
      ensures Packed(b.rows, b.columns, b.cells[p := x], c)
    {
      OtherColumnsUnchanged(b.rows, b.columns, b.cells, p, x, c);
    }
  }

  /** A disc placed on the last empty cell of a packed column shortens the
      column's empty run by one and leaves it packed. */
  lemma DropRun(rows: nat, columns: nat, cells: map<Pos, Cell>, p: Pos, x: Cell)
    requires GridKeys(rows, columns, cells) && p in cells && x != Empty
    requires EmptyRun(rows, columns, cells, p.column, 0) == p.row + 1 && Packed(rows, columns, cells, p.column)
    ensures GridKeys(rows, columns, cells[p := x])
    ensures EmptyRun(rows, columns, cells[p := x], p.column, 0) == p.row
    ensures Packed(rows, columns, cells[p := x], p.column)
  {
    var cells' := cells[p := x];
    EmptyRunUnique(rows, columns, cells', p.column, p.row);
    forall k | p.row < k < rows
      ensures cells'[Pos(k, p.column)] != Empty
    {
      assert cells'[Pos(k, p.column)] == cells[Pos(k, p.column)];
    }
  }

  /** Dropping a disc on a frontier entry of a settled board leaves it
      settled: Frontier.increase keeps the frontier in step with gravity. */
  lemma SetKeepsSettled(b: Board, p: Pos, who: Player)
    requires ValidBoard(b) && Settled(b) && p in ChoicesOf(b.frontier)
    ensures Settled(SetDisc(b, p, who))
  {
    var after := SetDisc(b, p, who);
    var cells := b.cells[p := Taken(who)];
    assert after.cells == cells;
    assert b.frontier[p.column] == TopEntry(b.rows, b.columns, b.cells, p.column);
    assert Packed(b.rows, b.columns, b.cells, p.column);
    DropRun(b.rows, b.columns, b.cells, p, Taken(who));
    OtherColumnsSettled(b, p, Taken(who));
    forall c | 0 <= c < after.columns
      ensures after.frontier[c] == TopEntry(after.rows, after.columns, after.cells, c)
      ensures Packed(after.rows, after.columns, after.cells, c)
    {
      if c != p.column {
        assert after.frontier[c] == b.frontier[c];
      }
    }
  }

  /** Lifting the top disc of a column of a settled board leaves it settled:
      Frontier.decrease keeps the frontier in step with gravity. */
  lemma ClearTopKeepsSettled(b: Board, p: Pos)
    requires ValidBoard(b) && Settled(b) && p in b.cells
    requires p.row == EmptyRun(b.rows, b.columns, b.cells, p.column, 0)
    ensures Settled(ClearDisc(b, p))
  {
    var after := ClearDisc(b, p);
    var cells := b.cells[p := Empty];
    assert after.cells == cells;
    var c := p.column;
    assert Packed(b.rows, b.columns, b.cells, c);
    assert b.cells[p] != Empty;
    if p.row + 1 < b.rows {
      assert b.cells[Pos(p.row + 1, c)] != Empty;
    }
    EmptyRunUnique(b.rows, b.columns, cells, c, p.row + 1);
    OtherColumnsSettled(b, p, Empty);
    forall c' | 0 <= c' < after.columns
      ensures after.frontier[c'] == TopEntry(after.rows, after.columns, after.cells, c')
      ensures Packed(after.rows, after.columns, after.cells, c')
    {
      if c' != c {
        assert after.frontier[c'] == b.frontier[c'];
      }
    }
  }

  // ---------------------------------------------------------------------
  // FourPlay.score
  // ---------------------------------------------------------------------

  /** Discs in the line through p along axis d holding what p holds:
      forward run + rearward run - 1 (p is counted by both). */
  function Connected(b: Board, p: Pos, d: Dir): int
    requires GridKeys(b.rows, b.columns, b.cells) && p in b.cells && IsDirection(d)
  {
    Crawl(b.rows, b.columns, b.cells, p, d, b.cells[p]) +
    Crawl(b.rows, b.columns, b.cells, p, Reverse(d), b.cells[p]) - 1
  }

  /** FourPlay.score: 1 when the disc at p completes a line of at least four
      along one of the four axes (vertical, horizontal and the two diagonals,
      each walked forward and rearward), 0 when no column can take another
      disc, None while the game goes on. */
  function Score(b: Board, p: Pos): Option<int>
    requires ValidBoard(b) && p in b.cells
  {
    if Connected(b, p, Dir(1, 0)) >= 4 || Connected(b, p, Dir(0, 1)) >= 4
       || Connected(b, p, Dir(1, 1)) >= 4 || Connected(b, p, Dir(1, -1)) >= 4
    then Some(1)
    else if ChoicesOf(b.frontier) == [] then Some(0)
    else None
  }

  /** Four consecutive cells along d, of which p is the i-th, all hold who. */
  ghost predicate Window(cells: map<Pos, Cell>, p: Pos, d: Dir, i: int, who: Cell) {
    forall t :: -i <= t < 4 - i ==> Owns(cells, Shift(p, d, t), who)
  }

  /** Some four-cell segment along d through p holds what p holds. */
  ghost predicate FourThrough(b: Board, p: Pos, d: Dir)
    requires p in b.cells
  {
    exists i :: 0 <= i < 4 && Window(b.cells, p, d, i, b.cells[p])
  }

  /** p lies on four in a row, horizontally, vertically or diagonally. */
  ghost predicate FourInARow(b: Board, p: Pos)
    requires p in b.cells
  {
    FourThrough(b, p, Dir(1, 0)) || FourThrough(b, p, Dir(0, 1))
    || FourThrough(b, p, Dir(1, 1)) || FourThrough(b, p, Dir(1, -1))
  }

  lemma ShiftReverse(p: Pos, d: Dir, t: int)
    requires IsDirection(d)
    ensures Shift(p, Reverse(d), t) == Shift(p, d, -t)
  {
  }

  /** A forward run f and a rearward run r with f + r - 1 >= 4 hold a
      four-cell segment through p. */
  lemma RunsMakeFour(b: Board, p: Pos, d: Dir)
    requires GridKeys(b.rows, b.columns, b.cells) && p in b.cells && IsDirection(d)
    requires Connected(b, p, d) >= 4
    ensures FourThrough(b, p, d)
  {
    var who := b.cells[p];
    var f := Crawl(b.rows, b.columns, b.cells, p, d, who);
    var r := Crawl(b.rows, b.columns, b.cells, p, Reverse(d), who);
    CrawlRun(b.rows, b.columns, b.cells, p, d, who);
    CrawlRun(b.rows, b.columns, b.cells, p, Reverse(d), who);
    assert Shift(p, Reverse(d), 0) == p;
    assert r >= 1;
    var i: int := if r - 1 < 3 then r - 1 else 3;
    assert f >= 4 - i;
    forall t | -i <= t < 4 - i
      ensures Owns(b.cells, Shift(p, d, t), who)
    {
      if t < 0 {
        ShiftReverse(p, d, -t);
        assert -t < r;
      } else {
        assert t < f;
      }
    }
    assert Window(b.cells, p, d, i, who);
  }

  /** A four-cell segment through p makes the forward and rearward runs
      add up to at least five. */
  lemma FourMakesRuns(b: Board, p: Pos, d: Dir)
    requires GridKeys(b.rows, b.columns, b.cells) && p in b.cells && IsDirection(d)
    requires FourThrough(b, p, d)
    ensures Connected(b, p, d) >= 4
  {
    var who := b.cells[p];
    var i :| 0 <= i < 4 && Window(b.cells, p, d, i, who);
    CrawlAtLeast(b.rows, b.columns, b.cells, p, d, who, 4 - i);
    forall t | 0 <= t < i + 1
      ensures Owns(b.cells, Shift(p, Reverse(d), t), who)
    {
      ShiftReverse(p, d, t);
    }
    CrawlAtLeast(b.rows, b.columns, b.cells, p, Reverse(d), who, i + 1);
  }

  /** The crawl count along an axis reaches four exactly when a four-cell
      segment through p lies on that axis. */
  lemma ConnectedMeansFour(b: Board, p: Pos, d: Dir)
    requires GridKeys(b.rows, b.columns, b.cells) && p in b.cells && IsDirection(d)
    ensures Connected(b, p, d) >= 4 <==> FourThrough(b, p, d)
  {
    if Connected(b, p, d) >= 4 {
      RunsMakeFour(b, p, d);
    }
    if FourThrough(b, p, d) {
      FourMakesRuns(b, p, d);
    }
  }

  /** What a move at p decides, stated without crawling: a win when p lies on
      four in a row, a draw when no column is open, nothing otherwise. */
  ghost function Verdict(b: Board, p: Pos): Option<int>
    requires ValidBoard(b) && p in b.cells
  {
    if FourInARow(b, p) then Some(1)
    else if ChoicesOf(b.frontier) == [] then Some(0)
    else None
  }

  /** The four crawl counts of score find a line of four exactly when p lies
      on four in a row. */
  lemma AxesMeanFour(b: Board, p: Pos)
    requires ValidBoard(b) && p in b.cells
    ensures (Connected(b, p, Dir(1, 0)) >= 4 || Connected(b, p, Dir(0, 1)) >= 4
             || Connected(b, p, Dir(1, 1)) >= 4 || Connected(b, p, Dir(1, -1)) >= 4)
            <==> FourInARow(b, p)
  {
    ConnectedMeansFour(b, p, Dir(1, 0));
    ConnectedMeansFour(b, p, Dir(0, 1));
    ConnectedMeansFour(b, p, Dir(1, 1));
    ConnectedMeansFour(b, p, Dir(1, -1));
  }

  /** score reports the verdict: a win exactly when p lies on four in a row;
      otherwise a draw exactly when no column is open. */
  lemma ScoreMeaning(b: Board, p: Pos)
    requires ValidBoard(b) && p in b.cells
    ensures Score(b, p) == Verdict(b, p)
  {
    AxesMeanFour(b, p);
  }

  // ---------------------------------------------------------------------
  // The mutable board
  // ---------------------------------------------------------------------

  const PlayerSymbol: char := '\U{25EF}'
  const AiSymbol: char := '\U{2613}'

  /** Whether `build` has reached p after finishing rows before `row` and the
      first `column` symbols of row `row`. */
  predicate Drawn(symbols: seq<seq<char>>, row: int, column: int, p: Pos) {
    (0 <= p.row < row && p.row < |symbols| && 0 <= p.column < |symbols[p.row]|)
    || (p.row == row && 0 <= p.row < |symbols| && 0 <= p.column < column && p.column < |symbols[p.row]|)
  }

  /** The occupant `build` reads from a symbol. */
  function Decode(player: Player, ai: Player, symbol: char): Cell {
    if symbol == player.symbol then Taken(player)
    else if symbol == ai.symbol then Taken(ai)
    else Empty
  }

  class Frontier {
    var entries: seq<Entry>

    constructor ()
      ensures entries == []
    {
      entries := [];
    }

    /** Frontier.increase */
    method Increase(fourPlay: FourPlay, column: int)
      requires fourPlay.frontier == this && fourPlay.Valid() && 0 <= column < fourPlay.columns
      modifies this
      ensures entries == Raised(old(fourPlay.Model()), column)
    {
      var disc := entries[column];
      if disc.None? {
        return;
      }
      var discAbove := Neighbor(fourPlay.cells, Pos(disc.value, column), Dir(-1, 0));
      entries := entries[column := if discAbove.Some? then Some(discAbove.value.row) else None];
    }

    /** Frontier.decrease */
    method Decrease(fourPlay: FourPlay, column: int)
      requires fourPlay.frontier == this && fourPlay.Valid() && 0 <= column < fourPlay.columns
      requires fourPlay.rows > 0
      modifies this
      ensures entries == Lowered(old(fourPlay.Model()), column)
    {
      var disc := entries[column];
      if disc.None? {
        entries := entries[column := Some(0)];
        return;
      }
      var discBelow := Neighbor(fourPlay.cells, Pos(disc.value, column), Dir(1, 0));
      entries := entries[column := if discBelow.Some? then Some(discBelow.value.row) else None];
    }

    /** Frontier.choices: the droppable discs in some order (the source
        shuffles them; only the permutation is promised). */
    method Choices() returns (choices: seq<Pos>)
      ensures multiset(choices) == multiset(ChoicesOf(entries))
    {
      choices := ChoicesOf(entries);
    }

    /** Frontier.reset: each column's entry becomes the last empty cell met
        scanning down from row 0, or None when row 0 is occupied. */
    method Reset(fourPlay: FourPlay)
      requires fourPlay.frontier == this && GridKeys(fourPlay.rows, fourPlay.columns, fourPlay.cells)
      modifies this
      ensures FrontierReset(fourPlay.Model())
    {
      var rows, columns, cells := fourPlay.rows, fourPlay.columns, fourPlay.cells;
      entries := seq(columns, _ => None);
      var column := 0;
      while column < columns
        invariant 0 <= column <= columns && |entries| == columns
        invariant forall c :: 0 <= c < column ==> entries[c] == TopEntry(rows, columns, cells, c)
      {
        var row := 0;
        entries := entries[column := None];
        while row < rows
          invariant 0 <= row <= rows && |entries| == columns
          invariant forall c :: 0 <= c < column ==> entries[c] == TopEntry(rows, columns, cells, c)
          invariant forall k :: 0 <= k < row ==> cells[Pos(k, column)] == Empty
          invariant entries[column] == if row == 0 then None else Some(row - 1)
        {
          if cells[Pos(row, column)] == Empty || row == rows {
            entries := entries[column := Some(row)];
          } else {
            break;
          }
          row := row + 1;
        }
        EmptyRunUnique(rows, columns, cells, column, row);
        column := column + 1;
      }
    }
  }

  class FourPlay {
    const rows: nat
    const columns: nat
    const player: Player
    const ai: Player
    var cells: map<Pos, Cell>
    const frontier: Frontier

    function Model(): Board
      reads this, frontier
    {
      Board(rows, columns, cells, frontier.entries)
    }

    ghost predicate Valid()
      reads this, frontier
    {
      ValidBoard(Model())
    }

    /** A rows x columns board of empty discs with a reset frontier. */
    constructor (rows: nat, columns: nat)
      ensures Valid() && Settled(Model()) && fresh(frontier)
      ensures this.rows == rows && this.columns == columns
      ensures player == Player(PlayerSymbol) && ai == Player(AiSymbol)
      ensures forall p :: p in cells ==> cells[p] == Empty
    {
      this.rows, this.columns := rows, columns;
      ai := Player(AiSymbol);
      player := Player(PlayerSymbol);
      frontier := new Frontier();
      var discs: map<Pos, Cell> := map[];
      var row := 0;
      while row < rows
        invariant 0 <= row <= rows
        invariant forall p :: p in discs <==> 0 <= p.row < row && 0 <= p.column < columns
        invariant forall p :: p in discs ==> discs[p] == Empty
      {
        var column := 0;
        while column < columns
          invariant 0 <= column <= columns
          invariant forall p :: p in discs <==> (0 <= p.row < row && 0 <= p.column < columns) || (p.row == row && 0 <= p.column < column)
          invariant forall p :: p in discs ==> discs[p] == Empty
        {
          discs := discs[Pos(row, column) := Empty];
          column := column + 1;
        }
        row := row + 1;
      }
      cells := discs;
      new;
      frontier.Reset(this);
      EmptyBoardSettled(Model());
    }

    /** FourPlay.set */
    method Set(disc: Pos, who: Player)
      requires Valid() && disc in cells
      modifies this, frontier
      ensures Valid() && Model() == SetDisc(old(Model()), disc, who)
    {
      cells := cells[disc := Taken(who)];
      frontier.Increase(this, disc.column);
    }

    /** FourPlay.clear */
    method Clear(disc: Pos)
      requires Valid() && disc in cells
      modifies this, frontier
      ensures Valid() && Model() == ClearDisc(old(Model()), disc)
    {
      cells := cells[disc := Empty];
      frontier.Decrease(this, disc.column);
    }

    /** FourPlay.score on the current board, reported as its verdict. */
    method ScoreDisc(disc: Pos) returns (score: Option<int>)
      requires Valid() && disc in cells
      ensures score == Verdict(Model(), disc)
    {
      score := Score(Model(), disc);
      ScoreMeaning(Model(), disc);
    }

    /** FourPlay.build: the discs named by `symbols` (row by row) take the
        player, the AI or nobody; the frontier is then reset. */
    method Build(symbols: seq<seq<char>>)
      requires Valid() && |symbols| <= rows
      requires forall r :: 0 <= r < |symbols| ==> |symbols[r]| <= columns
      modifies this, frontier
      ensures Valid() && FrontierReset(Model()) && OpenAbove(Model()) && cells.Keys == old(cells).Keys
      ensures forall p :: p in cells ==> cells[p] == (if Drawn(symbols, |symbols|, 0, p) then Decode(player, ai, symbols[p.row][p.column]) else old(cells)[p])
    {
      var row := 0;
      while row < |symbols|
        invariant 0 <= row <= |symbols| && cells.Keys == old(cells).Keys
        invariant forall p :: p in cells ==> cells[p] == (if Drawn(symbols, row, 0, p) then Decode(player, ai, symbols[p.row][p.column]) else old(cells)[p])
      {
        var column := 0;
        while column < |symbols[row]|
          invariant 0 <= column <= |symbols[row]| && cells.Keys == old(cells).Keys
          invariant forall p :: p in cells ==> cells[p] == (if Drawn(symbols, row, column, p) then Decode(player, ai, symbols[p.row][p.column]) else old(cells)[p])
        {
          cells := cells[Pos(row, column) := Decode(player, ai, symbols[row][column])];
          column := column + 1;
        }
        row := row + 1;
      }
      frontier.Reset(this);
      ResetIsOpenAbove(Model());
    }

    /** FourPlay.reset: every disc emptied, every column open at its bottom row. */
    method Reset()
      requires Valid()
      modifies this, frontier
      ensures Valid() && Settled(Model()) && cells.Keys == old(cells).Keys
      ensures forall p :: p in cells ==> cells[p] == Empty
    {
      cells := map p | p in cells :: Empty;
      frontier.Reset(this);
      EmptyBoardSettled(Model());
    }
  }

  /** An empty board with a reset frontier is settled, every column open at
      its bottom row. */
  lemma EmptyBoardSettled(b: Board)
    requires GridKeys(b.rows, b.columns, b.cells) && FrontierReset(b)
    requires forall p :: p in b.cells ==> b.cells[p] == Empty
    ensures ValidBoard(b) && Settled(b) && OpenAbove(b)
    ensures forall c :: 0 <= c < b.columns ==> b.frontier[c] == if b.rows == 0 then None else Some(b.rows - 1)
  {
    forall c | 0 <= c < b.columns
      ensures EmptyRun(b.rows, b.columns, b.cells, c, 0) == b.rows
    {
      EmptyRunUnique(b.rows, b.columns, b.cells, c, b.rows);
    }
    ResetIsOpenAbove(b);
  }
}
