/**
  The tic-tac-toe search: BreadthFirstSearchAI.play of tictactoe.py and
  best_move of tictactoe/ai.py, one algorithm. Each empty tile is tried in
  turn on the shared board: a finished game scores its result divided by
  the depth, an unfinished one the negated best reply, and the first
  strictly best tile is kept. There is no depth limit, so every line of
  play is searched to its end.

  `Search` is that result defined on board values; the methods `BestMove`
  and `TryTile` are the source's loop and its body, proved to restore the
  board and to compute `BestOf`.
 */
module TicTacToeSearch {
  import opened Common
  import opened TicTacToeBoard

  /** The search's result: (-inf, None) when there is no tile to play,
      otherwise the best score and the tile that reaches it. */
  datatype Best = NoMove | Move(score: real, tile: Pos)

  /** Every tile of cs can be played on g. */
  ghost predicate Open(g: Game, cs: seq<Pos>) {
    Tiles(g.tiles) && forall c :: c in cs ==> InGrid(c) && g.tiles[c] == Empty
  }

  /** A game that score does not settle still has a tile to play: the
      recursion on an unsettled position always finds a reply. */
  lemma UnsettledHasChoices(t: map<Pos, Cell>, c: Pos, who: Option<Player>)
    requires Tiles(t) && InGrid(c) && Score(t, c, who).None?
    ensures Vacancies(t) > 0
  {
    ChoicesMeans(t);
    VacanciesCount(t);
    if t[c] == Empty {
      assert c in Choices(t);
    }
  }

  /** A taken tile none of whose checked lines is complete leaves the game
      undecided while some tile q is empty. */
  lemma Undecided(t: map<Pos, Cell>, p: Pos, q: Pos, who: Option<Player>)
    requires Tiles(t) && InGrid(p) && InGrid(q) && t[p] != Empty && t[q] == Empty
    requires !CompleteRow(t, p) && !CompleteColumn(t, p) && !CompleteDiagonalAsWritten(t, p)
    ensures Score(t, p, who) == None
  {
    NoChoicesFull(t);
  }

  /** A taken tile with a complete checked line is scored a win for its
      owner ... */
  lemma Won(t: map<Pos, Cell>, p: Pos)
    requires Tiles(t) && InGrid(p) && t[p] != Empty
    requires CompleteRow(t, p) || CompleteColumn(t, p) || CompleteDiagonalAsWritten(t, p)
    ensures Score(t, p, None) == Some(1)
  {
  }

  /** ... and a tile without one is not. */
  lemma NotWon(t: map<Pos, Cell>, p: Pos)
    requires Tiles(t) && InGrid(p)
    requires !CompleteRow(t, p) && !CompleteColumn(t, p) && !CompleteDiagonalAsWritten(t, p)
    ensures Score(t, p, None) != Some(1)
  {
  }

  /** Scored for its own owner, a tile is a win, a draw or undecided. */
  lemma OwnScore(t: map<Pos, Cell>, c: Pos)
    requires Tiles(t) && InGrid(c)
    ensures Score(t, c, None) in {None, Some(0), Some(1)}
  {
  }

  // ---------------------------------------------------------------------
  // The value of a position
  // ---------------------------------------------------------------------

  /** The value, for the player who has just taken c, of the position
      `next`: the decayed score of a finished game, or the negated value of
      the opponent's best reply one level deeper. */
  ghost function MoveValue(next: Game, c: Pos, level: nat): real
    requires Tiles(next.tiles) && InGrid(c) && level >= 1
    decreases Vacancies(next.tiles), 4, 0
  {
    match Score(next.tiles, c, None)
    case Some(s) => s as real / level as real
    case None =>
      UnsettledHasChoices(next.tiles, c, None);
      -Search(next, level + 1).score
  }

  /** The value of taking c, for the player whose turn it is. It is named
      apart from DropValue, which builds the position after the move, so
      that a proof about the value of a move sees that position only where
      it asks for it. */
  ghost function ChildValue(g: Game, c: Pos, level: nat): real
    requires Tiles(g.tiles) && InGrid(c) && g.tiles[c] == Empty && level >= 1
    decreases Vacancies(g.tiles), 1, 1
  {
    DropValue(g, c, level)
  }

  ghost function DropValue(g: Game, c: Pos, level: nat): real
    requires Tiles(g.tiles) && InGrid(c) && g.tiles[c] == Empty && level >= 1
    decreases Vacancies(g.tiles), 1, 0
  {
    VacanciesShrink(g.tiles, c, Taken(g.next));
    MoveValue(SetTile(g, c), c, level)
  }

  /** The result the loop holds after the first n candidates of cs: the
      first candidate whose value beats every earlier one. */
  ghost function BestOf(g: Game, cs: seq<Pos>, n: nat, level: nat): (r: Best)
    requires Open(g, cs) && n <= |cs| && level >= 1
    ensures r.NoMove? <==> n == 0
    ensures r.Move? ==> r.tile in cs[..n]
    decreases Vacancies(g.tiles), 2, n
  {
    if n == 0 then NoMove
    else
      var before := BestOf(g, cs, n - 1, level);
      var v := ChildValue(g, cs[n - 1], level);
      if before.NoMove? || v > before.score then Move(v, cs[n - 1]) else before
  }

  /** What the search returns on g: its loop run over every choice. */
  ghost function Search(g: Game, level: nat): (r: Best)
    requires Tiles(g.tiles) && level >= 1
    ensures r.NoMove? <==> Vacancies(g.tiles) == 0
    ensures r.Move? ==> InGrid(r.tile) && g.tiles[r.tile] == Empty
    decreases Vacancies(g.tiles), 3, 0
  {
    ChoicesMeans(g.tiles);
    VacanciesCount(g.tiles);
    BestOf(g, Choices(g.tiles), |Choices(g.tiles)|, level)
  }

  /** What the loop's result is: the tile of some candidate k, whose value
      it carries; no candidate is worth more, and every candidate before k
      is worth strictly less. */
  lemma {:induction false} BestOfChosen(g: Game, cs: seq<Pos>, n: nat, level: nat) returns (k: nat)
    requires Open(g, cs) && 0 < n <= |cs| && level >= 1
    ensures k < n && BestOf(g, cs, n, level) == Move(ChildValue(g, cs[k], level), cs[k])
    ensures forall j :: 0 <= j < n ==> ChildValue(g, cs[j], level) <= BestOf(g, cs, n, level).score
    ensures forall j :: 0 <= j < k ==> ChildValue(g, cs[j], level) < BestOf(g, cs, n, level).score
  {
    if n == 1 {
      k := 0;
    } else {
      var before := BestOf(g, cs, n - 1, level);
      var v := ChildValue(g, cs[n - 1], level);
      var i := BestOfChosen(g, cs, n - 1, level);
      if v > before.score {
        k := n - 1;
      } else {
        k := i;
      }
    }
  }

  /** MoveValue unfolded once: a settled position's decayed score, or the
      negated value of the best reply. */
  lemma MoveValueCases(next: Game, c: Pos, level: nat, score: Option<int>)
    requires Tiles(next.tiles) && InGrid(c) && level >= 1 && score == Score(next.tiles, c, None)
    ensures score.Some? ==> MoveValue(next, c, level) == score.value as real / level as real
    ensures score.None? ==> Vacancies(next.tiles) > 0 && MoveValue(next, c, level) == -Search(next, level + 1).score
  {
    if score.None? {
      UnsettledHasChoices(next.tiles, c, None);
    }
  }

  // ---------------------------------------------------------------------
  // Bounds
  // ---------------------------------------------------------------------

  /** A move is worth at most a win at its depth and at least a loss. */
  lemma {:induction false} MoveValueBound(next: Game, c: Pos, level: nat)
    requires Tiles(next.tiles) && InGrid(c) && level >= 1
    ensures -WinAt(level) <= MoveValue(next, c, level) <= WinAt(level)
    decreases Vacancies(next.tiles), 5
  {
    var score := Score(next.tiles, c, None);
    if score.Some? {
      OwnScore(next.tiles, c);
      MoveValueCases(next, c, level, score);
      DecayBound(score.value, level);
    } else {
      ReplyBound(next, c, level);
    }
  }

  /** The negated best reply lies strictly within a win at this depth. */
  lemma {:induction false} ReplyBound(next: Game, c: Pos, level: nat)
    requires Tiles(next.tiles) && InGrid(c) && level >= 1 && Score(next.tiles, c, None).None?
    ensures -WinAt(level) < MoveValue(next, c, level) < WinAt(level)
    decreases Vacancies(next.tiles), 4
  {
    MoveValueCases(next, c, level, None);
    SearchBound(next, level + 1);
    Reciprocals(level);
  }

  /** A decayed win or draw lies within a win at its depth. */
  lemma DecayBound(s: int, level: nat)
    requires level >= 1 && (s == 0 || s == 1)
    ensures -WinAt(level) <= s as real / level as real <= WinAt(level)
  {
    Decay(s, level);
  }

  lemma {:induction false} ChildValueBound(g: Game, c: Pos, level: nat)
    requires Tiles(g.tiles) && InGrid(c) && g.tiles[c] == Empty && level >= 1
    ensures -WinAt(level) <= ChildValue(g, c, level) <= WinAt(level)
    decreases Vacancies(g.tiles), 1
  {
    VacanciesShrink(g.tiles, c, Taken(g.next));
    MoveValueBound(SetTile(g, c), c, level);
  }

  /** A position is worth at most a win at its depth and at least a loss. */
  lemma {:induction false} SearchBound(g: Game, level: nat)
    requires Tiles(g.tiles) && Vacancies(g.tiles) > 0 && level >= 1
    ensures -WinAt(level) <= Search(g, level).score <= WinAt(level)
    decreases Vacancies(g.tiles), 3
  {
    var cs := Choices(g.tiles);
    ChoicesMeans(g.tiles);
    VacanciesCount(g.tiles);
    var k := BestOfChosen(g, cs, |cs|, level);
    ChildValueBound(g, cs[k], level);
  }

  /** A tile that ends the game is worth its score divided by the depth. */
  lemma TerminalValue(g: Game, c: Pos, level: nat, s: int)
    requires Tiles(g.tiles) && InGrid(c) && g.tiles[c] == Empty && level >= 1
    requires Score(SetTile(g, c).tiles, c, None) == Some(s)
    ensures ChildValue(g, c, level) == s as real / level as real
  {
    assert ChildValue(g, c, level) == DropValue(g, c, level) == MoveValue(SetTile(g, c), c, level);
  }

  /** Any other tile is worth the negated best reply one level deeper. */
  lemma ReplyValue(g: Game, c: Pos, level: nat)
    requires Tiles(g.tiles) && InGrid(c) && g.tiles[c] == Empty && level >= 1
    requires Score(SetTile(g, c).tiles, c, None).None?
    ensures Vacancies(SetTile(g, c).tiles) > 0
    ensures ChildValue(g, c, level) == -Search(SetTile(g, c), level + 1).score
  {
    UnsettledHasChoices(SetTile(g, c).tiles, c, None);
    assert ChildValue(g, c, level) == DropValue(g, c, level) == MoveValue(SetTile(g, c), c, level);
  }

  /** A tile that score reports as a win is worth 1 at the root. */
  lemma WinValue(g: Game, c: Pos)
    requires Tiles(g.tiles) && InGrid(c) && g.tiles[c] == Empty
    requires Score(SetTile(g, c).tiles, c, None) == Some(1)
    ensures ChildValue(g, c, 1) == 1.0
  {
    TerminalValue(g, c, 1, 1);
  }

  /** Any other tile is worth less than 1 at the root: a draw is 0, and an
      unsettled position at most a win one level deeper. */
  lemma NoWinValue(g: Game, c: Pos)
    requires Tiles(g.tiles) && InGrid(c) && g.tiles[c] == Empty
    requires Score(SetTile(g, c).tiles, c, None) != Some(1)
    ensures ChildValue(g, c, 1) < 1.0
  {
    var next := SetTile(g, c);
    OwnScore(next.tiles, c);
    var score := Score(next.tiles, c, None);
    if score.Some? {
      assert score.value == 0;
      TerminalValue(g, c, 1, 0);
      Decay(0, 1);
    } else {
      ReplyValue(g, c, 1);
      SearchBound(next, 2);
      Reciprocals(1);
    }
  }

  /** w is an open tile that score reports as a win for the player to
      move, and no open tile before it in the board's order is. */
  ghost predicate FirstWinning(g: Game, w: Pos) {
    && Tiles(g.tiles) && InGrid(w) && w in Choices(g.tiles)
    && Score(SetTile(g, w).tiles, w, None) == Some(1)
    && forall c :: InGrid(c) && c in Choices(g.tiles) && Index(c) < Index(w) ==> Score(SetTile(g, c).tiles, c, None) != Some(1)
  }

  /** The first tile, in the board's order, that score reports as a win
      is the tile the search picks, with score 1. */
  lemma FirstWinChosen(g: Game, w: Pos)
    requires FirstWinning(g, w)
    ensures Search(g, 1) == Move(1.0, w)
  {
    var cs := Choices(g.tiles);
    ChoicesMeans(g.tiles);
    var i :| 0 <= i < |cs| && cs[i] == w;
    WinValue(g, w);
    var k := BestOfChosen(g, cs, |cs|, 1);
    ChildValueBound(g, cs[k], 1);
    if k != i {
      if k < i {
        ChoicesOrdered(g.tiles, k, i);
        NoWinValue(g, cs[k]);
      }
      assert false;
    }
    assert Search(g, 1) == BestOf(g, cs, |cs|, 1);
  }

  /** At any depth, a tile that score does not report as a win is worth
      less than a win at that depth. */
  lemma NoWinBelow(g: Game, c: Pos, level: nat)
    requires Tiles(g.tiles) && InGrid(c) && g.tiles[c] == Empty && level >= 1
    requires Score(SetTile(g, c).tiles, c, None) != Some(1)
    ensures ChildValue(g, c, level) < WinAt(level)
  {
    var next := SetTile(g, c);
    OwnScore(next.tiles, c);
    var score := Score(next.tiles, c, None);
    if score.Some? {
      TerminalValue(g, c, level, 0);
      Decay(0, level);
    } else {
      ReplyValue(g, c, level);
      SearchBound(next, level + 1);
      Reciprocals(level);
    }
  }

  /** A position is worth at least each of its open tiles. */
  lemma SearchAtLeast(g: Game, c: Pos, level: nat)
    requires Tiles(g.tiles) && InGrid(c) && g.tiles[c] == Empty && level >= 1
    ensures Search(g, level).Move? && ChildValue(g, c, level) <= Search(g, level).score
  {
    var cs := Choices(g.tiles);
    ChoicesMeans(g.tiles);
    var i :| 0 <= i < |cs| && cs[i] == c;
    var k := BestOfChosen(g, cs, |cs|, level);
  }

  /** A tile that leaves the game undecided and lets the opponent win at
      once on w is worth at most a loss one level down. */
  lemma LosingValue(g: Game, c: Pos, w: Pos)
    requires Tiles(g.tiles) && InGrid(c) && InGrid(w) && c != w
    requires g.tiles[c] == Empty && g.tiles[w] == Empty
    requires Blunder(g, c, w)
    ensures ChildValue(g, c, 1) <= -WinAt(2)
  {
    var h := SetTile(g, c);
    ReplyValue(g, c, 1);
    TerminalValue(h, w, 2, 1);
    Decay(1, 2);
    SearchAtLeast(h, w, 2);
  }

  /** No open tile of h is one score reports as a win for the player to
      move. */
  ghost predicate NoWinningTile(h: Game)
    requires Tiles(h.tiles)
  {
    forall d :: InGrid(d) && h.tiles[d] == Empty ==> Score(SetTile(h, d).tiles, d, None) != Some(1)
  }

  /** Taking c leaves the game undecided and lets the opponent win at once
      on w. */
  ghost predicate Blunder(g: Game, c: Pos, w: Pos)
    requires Tiles(g.tiles) && InGrid(c) && InGrid(w)
  {
    Score(SetTile(g, c).tiles, c, None) == None && Score(SetTile(SetTile(g, c), w).tiles, w, None) == Some(1)
  }

  /** A tile after which the game is settled, or the opponent has no tile
      that score reports as a win, is worth more than a loss one level
      down. */
  lemma SafeValue(g: Game, w: Pos)
    requires Tiles(g.tiles) && InGrid(w) && g.tiles[w] == Empty
    requires Score(SetTile(g, w).tiles, w, None) == None ==> NoWinningTile(SetTile(g, w))
    ensures ChildValue(g, w, 1) > -WinAt(2)
  {
    var h := SetTile(g, w);
    OwnScore(h.tiles, w);
    var score := Score(h.tiles, w, None);
    if score.Some? {
      TerminalValue(g, w, 1, score.value);
      Decay(score.value, 1);
    } else {
      ReplyValue(g, w, 1);
      var ds := Choices(h.tiles);
      ChoicesMeans(h.tiles);
      VacanciesCount(h.tiles);
      var k := BestOfChosen(h, ds, |ds|, 2);
      NoWinBelow(h, ds[k], 2);
      assert Search(h, 2) == BestOf(h, ds, |ds|, 2);
    }
  }

  /** w is the forced reply: every other open tile is a blunder that lets
      the opponent win at once on w, and after w the game is settled or the
      opponent has no tile that score reports as a win. */
  ghost predicate Forced(g: Game, w: Pos) {
    && Tiles(g.tiles) && InGrid(w) && g.tiles[w] == Empty
    && (forall c :: InGrid(c) && g.tiles[c] == Empty && c != w ==> Blunder(g, c, w))
    && (Score(SetTile(g, w).tiles, w, None) == None ==> NoWinningTile(SetTile(g, w)))
  }

  /** The forced reply is the tile the search picks, worth more than a
      loss one level down. */
  lemma ForcedChosen(g: Game, w: Pos)
    requires Forced(g, w)
    ensures Search(g, 1).Move? && Search(g, 1).tile == w && Search(g, 1).score > -WinAt(2)
  {
    var cs := Choices(g.tiles);
    ChoicesMeans(g.tiles);
    var i :| 0 <= i < |cs| && cs[i] == w;
    var k := BestOfChosen(g, cs, |cs|, 1);
    SafeValue(g, w);
    if cs[k] != w {
      LosingValue(g, cs[k], w);
      assert false;
    }
    assert Search(g, 1) == BestOf(g, cs, |cs|, 1);
  }

  // ---------------------------------------------------------------------
  // The search on the mutable board
  // ---------------------------------------------------------------------

  /** The loop body: set the tile, score it, and clear it again. */
  method TryTile(game: TicTacToe, c: Pos, level: nat) returns (v: real)
    requires game.Valid() && Turns(game.Model()) && InGrid(c) && game.tiles[c] == Empty && level >= 1
    modifies game
    ensures game.Valid() && game.Model() == old(game.Model())
    ensures v == ChildValue(old(game.Model()), c, level)
    decreases Vacancies(game.tiles), 1
  {
    ghost var g := game.Model();
    var outcome := game.Set(c);
    SetThenClear(g, c);
    VacanciesShrink(g.tiles, c, Taken(g.next));
    v := SetTileValue(game, c, level);
    assert ChildValue(g, c, level) == DropValue(g, c, level) == MoveValue(SetTile(g, c), c, level);
    outcome := game.Clear(c);
  }

  /** The score of the tile just set: the position's own score when it
      settles the game, otherwise minus the opponent's best reply. */
  method SetTileValue(game: TicTacToe, c: Pos, level: nat) returns (v: real)
    requires game.Valid() && Turns(game.Model()) && InGrid(c) && level >= 1
    modifies game
    ensures game.Valid() && game.Model() == old(game.Model())
    ensures v == MoveValue(old(game.Model()), c, level)
    decreases Vacancies(game.tiles), 4
  {
    ghost var next := game.Model();
    var score := Score(game.tiles, c, None);
    MoveValueCases(next, c, level, score);
    if score.Some? {
      v := score.value as real / level as real;
    } else {
      v := Rebuttal(game, level);
    }
  }

  /** The opponent's best reply one level deeper, negated. */
  method Rebuttal(game: TicTacToe, level: nat) returns (v: real)
    requires game.Valid() && Turns(game.Model()) && Vacancies(game.tiles) > 0 && level >= 1
    modifies game
    ensures game.Valid() && game.Model() == old(game.Model())
    ensures v == -Search(old(game.Model()), level + 1).score
    decreases Vacancies(game.tiles), 3
  {
    var reply := BestMove(game, level + 1);
    v := -reply.score;
  }

  /** BreadthFirstSearchAI.play / best_move: every empty tile tried in the
      board's order, the first strictly best kept; the board is as it was. */
  method BestMove(game: TicTacToe, level: nat) returns (best: Best)
    requires game.Valid() && Turns(game.Model()) && level >= 1
    modifies game
    ensures game.Valid() && game.Model() == old(game.Model())
    ensures best == Search(old(game.Model()), level)
    decreases Vacancies(game.tiles), 2
  {
    ghost var g := game.Model();
    var choices := Choices(game.tiles);
    ChoicesMeans(game.tiles);
    best := NoMove;
    var i := 0;
    while i < |choices|
      invariant 0 <= i <= |choices|
      invariant game.Valid() && game.Model() == g
      invariant best == BestOf(g, choices, i, level)
    {
      var v := TryTile(game, choices[i], level);
      if best.NoMove? || v > best.score {
        best := Move(v, choices[i]);
      }
      i := i + 1;
    }
  }

  /** What TicTacToe.round reports: a raise on an occupied tile, a game
      that goes on, or the final score from the player's side. */
  datatype RoundResult = Raised | Continues | Ended(score: int)

  /** TicTacToe.round: the player's tile is set and scored; unless that
      ends the game, the AI searches, sets its best tile and scores it, the
      AI's score being reported negated. */
  method Round(game: TicTacToe, tile: Pos) returns (result: RoundResult, aiTile: Option<Pos>)
    requires game.Valid() && Turns(game.Model()) && InGrid(tile)
    modifies game
    ensures game.Valid()
    ensures result == Raised <==> old(game.tiles)[tile] != Empty
    ensures result == Raised ==> game.Model() == old(game.Model()) && aiTile == None
    ensures result != Raised ==>
      var after := SetTile(old(game.Model()), tile);
      match Score(after.tiles, tile, None)
      case Some(s) => result == Ended(s) && aiTile == None && game.Model() == after
      case None =>
        var best := Search(after, 1);
        && best.Move?
        && aiTile == Some(best.tile)
        && game.Model() == SetTile(after, best.tile)
        && result == (match Score(game.tiles, best.tile, None)
                      case Some(s) => Ended(-s)
                      case None => Continues)
  {
    ghost var g := game.Model();
    var outcome := game.Set(tile);
    if outcome.Fail? {
      return Raised, None;
    }
    SetThenClear(g, tile);
    var playerScore := Score(game.tiles, tile, None);
    if playerScore.Some? {
      return Ended(playerScore.value), None;
    }
    UnsettledHasChoices(game.tiles, tile, None);
    ghost var after := game.Model();
    var best := BestMove(game, 1);
    outcome := game.Set(best.tile);
    aiTile := Some(best.tile);
    var aiScore := Score(game.tiles, best.tile, None);
    result := if aiScore.Some? then Ended(-aiScore.value) else Continues;
  }

  // ---------------------------------------------------------------------
  // The positions of the source's tests
  // ---------------------------------------------------------------------

  const Nought := Player('\U{25EF}')
  const Cross := Player('\U{2613}')

  /** g is the position the source's tests build from three rows of three
      symbols, crosses (the computer) to move. */
  ghost predicate Shows(g: Game, rows: seq<string>) {
    && |rows| == 3 && (forall r :: 0 <= r < 3 ==> |rows[r]| == 3)
    && g.player == Nought && g.ai == Cross && g.next == Cross && g.previous == Nought
    && Tiles(g.tiles)
    && forall p :: InGrid(p) ==> g.tiles[p] == Decode(Nought, Cross, rows[p.row][p.column])
  }

  /** What `build` makes from three full rows is the position they show. */
  lemma BuiltShows(rows: seq<string>)
    requires |rows| == 3 && forall r :: 0 <= r < 3 ==> |rows[r]| == 3
    ensures Shows(Game(Nought, Cross, BuiltTiles(rows, Nought, Cross), Cross, Nought), rows)
  {
    GridIsTiles();
  }

  /** One empty tile left: the search plays it (tictactoe/ai.py:133-137). */
  lemma OnlyTileChosen(g: Game)
    requires Shows(g, ["\U{2610}\U{25EF}\U{2613}", "\U{25EF}\U{2613}\U{2613}", "\U{25EF}\U{2613}\U{25EF}"])
    ensures Choices(g.tiles) == [Pos(0, 0)]
    ensures Search(g, 1).Move? && Search(g, 1).tile == Pos(0, 0)
  {
    assert Choices(g.tiles) == [Pos(0, 0)];
  }

  /** The first empty tile completes the crosses' column: it is chosen
      (tictactoe/ai.py:140-144). */
  lemma FirstTileWins(g: Game)
    requires Shows(g, ["\U{2610}\U{2613}\U{2610}", "\U{2613}\U{25EF}\U{25EF}", "\U{2613}\U{25EF}\U{25EF}"])
    ensures Search(g, 1) == Move(1.0, Pos(0, 0))
  {
    FirstTileFacts(g);
    FirstWinChosen(g, Pos(0, 0));
  }

  /** On that board (0,0) is the first winning tile. */
  lemma FirstTileFacts(g: Game)
    requires Shows(g, ["\U{2610}\U{2613}\U{2610}", "\U{2613}\U{25EF}\U{25EF}", "\U{2613}\U{25EF}\U{25EF}"])
    ensures FirstWinning(g, Pos(0, 0))
  {
    assert Choices(g.tiles) == [Pos(0, 0), Pos(0, 2)];
    assert CompleteColumn(SetTile(g, Pos(0, 0)).tiles, Pos(0, 0));
  }

  /** (0,0) leads nowhere at once, (0,1) completes the crosses' middle
      column: (0,1) is chosen with score 1 (tictactoe/ai.py:152-156). */
  lemma ImmediateWinChosen(g: Game)
    requires Shows(g, ["\U{2610}\U{2610}\U{2613}", "\U{25EF}\U{2613}\U{2610}", "\U{25EF}\U{2613}\U{25EF}"])
    ensures Search(g, 1) == Move(1.0, Pos(0, 1))
  {
    ImmediateWinFacts(g);
    FirstWinChosen(g, Pos(0, 1));
  }

  /** The older test of the same board (tictactoe.py:374-378) expects
      (0,0); the search does not answer it. */
  lemma CornerExpectationFails(g: Game)
    requires Shows(g, ["\U{2610}\U{2610}\U{2613}", "\U{25EF}\U{2613}\U{2610}", "\U{25EF}\U{2613}\U{25EF}"])
    ensures Search(g, 1).Move? && Search(g, 1).tile != Pos(0, 0)
  {
    ImmediateWinChosen(g);
  }

  /** On that board (0,1) is the first winning tile. */
  lemma ImmediateWinFacts(g: Game)
    requires Shows(g, ["\U{2610}\U{2610}\U{2613}", "\U{25EF}\U{2613}\U{2610}", "\U{25EF}\U{2613}\U{25EF}"])
    ensures FirstWinning(g, Pos(0, 1))
  {
    assert Choices(g.tiles) == [Pos(0, 0), Pos(0, 1), Pos(1, 2)];
    assert Score(SetTile(g, Pos(0, 0)).tiles, Pos(0, 0), None) == None;
    assert CompleteColumn(SetTile(g, Pos(0, 1)).tiles, Pos(0, 1));
  }

  /** The board whose tiles, row by row, are the nine cells. */
  function Layout(cells: seq<Cell>): (t: map<Pos, Cell>)
    requires |cells| == 9
    ensures Tiles(t)
  {
    GridIsTiles();
    map[Pos(0, 0) := cells[0], Pos(0, 1) := cells[1], Pos(0, 2) := cells[2],
        Pos(1, 0) := cells[3], Pos(1, 1) := cells[4], Pos(1, 2) := cells[5],
        Pos(2, 0) := cells[6], Pos(2, 1) := cells[7], Pos(2, 2) := cells[8]]
  }

  /** A tile of a board given by its nine tiles. */
  lemma LayoutAt(cells: seq<Cell>, p: Pos)
    requires |cells| == 9 && InGrid(p)
    ensures Layout(cells)[p] == cells[Index(p)]
  {
    assert p == Pos(p.row, p.column);
    if p.row == 0 {
    } else if p.row == 1 {
    } else {
    }
  }

  /** Setting a tile of such a board sets its entry in the nine. */
  lemma LayoutSet(cells: seq<Cell>, p: Pos, x: Cell)
    requires |cells| == 9 && InGrid(p)
    ensures Layout(cells)[p := x] == Layout(cells[Index(p) := x])
  {
    var t, u := Layout(cells)[p := x], Layout(cells[Index(p) := x]);
    assert Tiles(t) && Tiles(u);
    forall q | InGrid(q)
      ensures t[q] == u[q]
    {
      LayoutAt(cells, q);
      LayoutAt(cells[Index(p) := x], q);
      if q != p {
        assert p == Pos(p.row, p.column) && q == Pos(q.row, q.column);
        assert Index(q) != Index(p);
      }
    }
    assert t.Keys == u.Keys;
    assert t == u;
  }

  /** The three checks of score, on a board given by its nine tiles. */
  function LinedAt(cells: seq<Cell>, p: Pos): bool
    requires |cells| == 9 && InGrid(p)
  {
    var r, c := 3 * p.row, p.column;
    var x := cells[r + c];
    (x == cells[r] == cells[r + 1] == cells[r + 2]) || (x == cells[c] == cells[3 + c] == cells[6 + c])
    || (if c - p.row == 0 then x == cells[0] == cells[4] == cells[8]
        else if c + p.row == 2 then x == cells[2] == cells[4] == cells[6]
        else false)
  }

  /** Some tile of the nine is empty. */
  predicate Gap(cells: seq<Cell>)
    requires |cells| == 9
  {
    cells[0] == Empty || cells[1] == Empty || cells[2] == Empty || cells[3] == Empty || cells[4] == Empty
    || cells[5] == Empty || cells[6] == Empty || cells[7] == Empty || cells[8] == Empty
  }

  /** score, for the tile's owner, on a board given by its nine tiles. */
  function ScoreAt(cells: seq<Cell>, p: Pos): Option<int>
    requires |cells| == 9 && InGrid(p)
  {
    if cells[Index(p)] == Empty then None
    else if LinedAt(cells, p) then Some(1)
    else if !Gap(cells) then Some(0)
    else None
  }

  /** completeRow on the nine tiles. */
  lemma RowLayout(cells: seq<Cell>, p: Pos)
    requires |cells| == 9 && InGrid(p)
    ensures CompleteRow(Layout(cells), p)
      <==> cells[Index(p)] == cells[3 * p.row] == cells[3 * p.row + 1] == cells[3 * p.row + 2]
  {
    LayoutAt(cells, p);
    LayoutAt(cells, Pos(p.row, 0));
    LayoutAt(cells, Pos(p.row, 1));
    LayoutAt(cells, Pos(p.row, 2));
  }

  /** completeColumn on the nine tiles. */
  lemma ColumnLayout(cells: seq<Cell>, p: Pos)
    requires |cells| == 9 && InGrid(p)
    ensures CompleteColumn(Layout(cells), p)
      <==> cells[Index(p)] == cells[p.column] == cells[3 + p.column] == cells[6 + p.column]
  {
    LayoutAt(cells, p);
    LayoutAt(cells, Pos(0, p.column));
    LayoutAt(cells, Pos(1, p.column));
    LayoutAt(cells, Pos(2, p.column));
  }

  /** completeDiagonal, as written, on the nine tiles. */
  lemma DiagonalLayout(cells: seq<Cell>, p: Pos)
    requires |cells| == 9 && InGrid(p)
    ensures CompleteDiagonalAsWritten(Layout(cells), p)
      <==> if p.column - p.row == 0 then cells[Index(p)] == cells[0] == cells[4] == cells[8]
           else if p.column + p.row == 2 then cells[Index(p)] == cells[2] == cells[4] == cells[6]
           else false
  {
    LayoutAt(cells, p);
    LayoutDiagonals(cells);
  }

  /** The diagonals of the nine tiles. */
  lemma LayoutDiagonals(cells: seq<Cell>)
    requires |cells| == 9
    ensures var t := Layout(cells);
      t[Pos(0, 0)] == cells[0] && t[Pos(1, 1)] == cells[4] && t[Pos(2, 2)] == cells[8]
      && t[Pos(0, 2)] == cells[2] && t[Pos(2, 0)] == cells[6]
  {
  }

  /** The checks agree with LinedAt. */
  lemma LinedLayout(cells: seq<Cell>, p: Pos)
    requires |cells| == 9 && InGrid(p)
    ensures CompleteRow(Layout(cells), p) || CompleteColumn(Layout(cells), p) || CompleteDiagonalAsWritten(Layout(cells), p)
      <==> LinedAt(cells, p)
  {
    RowLayout(cells, p);
    ColumnLayout(cells, p);
    DiagonalLayout(cells, p);
  }

  /** The board is full exactly when no tile of the nine is empty. */
  lemma FullLayout(cells: seq<Cell>)
    requires |cells| == 9
    ensures Full(Layout(cells)) <==> !Gap(cells)
  {
    var t := Layout(cells);
    LayoutDiagonals(cells);
    LayoutMiddles(cells);
    if !Gap(cells) {
      forall q | InGrid(q)
        ensures t[q] != Empty
      {
        assert q == Pos(q.row, q.column);
      }
    }
  }

  /** The tiles of the nine off the diagonals. */
  lemma LayoutMiddles(cells: seq<Cell>)
    requires |cells| == 9
    ensures var t := Layout(cells);
      t[Pos(0, 1)] == cells[1] && t[Pos(1, 0)] == cells[3] && t[Pos(1, 2)] == cells[5] && t[Pos(2, 1)] == cells[7]
  {
  }

  /** score on the board of nine tiles is ScoreAt. */
  lemma ScoreLayout(cells: seq<Cell>, p: Pos)
    requires |cells| == 9 && InGrid(p)
    ensures Score(Layout(cells), p, None) == ScoreAt(cells, p)
  {
    LayoutAt(cells, p);
    LinedLayout(cells, p);
    FullLayout(cells);
    NoChoicesFull(Layout(cells));
  }

  /** A move on a board of nine tiles. */
  lemma SetLayout(g: Game, cells: seq<Cell>, p: Pos)
    requires |cells| == 9 && InGrid(p) && g.tiles == Layout(cells)
    ensures SetTile(g, p).tiles == Layout(cells[Index(p) := Taken(g.next)])
  {
    LayoutSet(cells, p, Taken(g.next));
  }

  const O := Taken(Nought)
  const X := Taken(Cross)

  /** The position nine tiles show, crosses to move. */
  function Position(cells: seq<Cell>): Game
    requires |cells| == 9
  {
    Game(Nought, Cross, Layout(cells), Cross, Nought)
  }

  /** The nine tiles three rows of symbols show, row by row. */
  function Cells(rows: seq<string>): (cells: seq<Cell>)
    requires |rows| == 3 && forall r :: 0 <= r < 3 ==> |rows[r]| == 3
    ensures |cells| == 9
  {
    var d := (symbol: char) => Decode(Nought, Cross, symbol);
    [d(rows[0][0]), d(rows[0][1]), d(rows[0][2]),
     d(rows[1][0]), d(rows[1][1]), d(rows[1][2]),
     d(rows[2][0]), d(rows[2][1]), d(rows[2][2])]
  }

  /** Tile k of the nine is taken, is w, or is a blunder: crosses taking
      it complete no line, and noughts then complete one at w. */
  predicate BlunderCell(cells: seq<Cell>, k: int, w: Pos)
    requires |cells| == 9 && 0 <= k < 9 && InGrid(w)
  {
    cells[k] != Empty || k == Index(w)
    || (!LinedAt(cells[k := X], TileAt(k)) && LinedAt(cells[k := X][Index(w) := O], w))
  }

  /** Tile k of the nine is taken, or noughts taking it complete no line. */
  predicate SafeCell(cells: seq<Cell>, k: int)
    requires |cells| == 9 && 0 <= k < 9
  {
    cells[k] != Empty || !LinedAt(cells[k := O], TileAt(k))
  }

  /** Forced, read off the nine tiles of a position crosses move in, one
      tile at a time. */
  predicate ForcedCells(cells: seq<Cell>, w: Pos)
    requires |cells| == 9 && InGrid(w)
  {
    var after := cells[Index(w) := X];
    && cells[Index(w)] == Empty
    && BlunderCell(cells, 0, w) && BlunderCell(cells, 1, w) && BlunderCell(cells, 2, w)
    && BlunderCell(cells, 3, w) && BlunderCell(cells, 4, w) && BlunderCell(cells, 5, w)
    && BlunderCell(cells, 6, w) && BlunderCell(cells, 7, w) && BlunderCell(cells, 8, w)
    && SafeCell(after, 0) && SafeCell(after, 1) && SafeCell(after, 2)
    && SafeCell(after, 3) && SafeCell(after, 4) && SafeCell(after, 5)
    && SafeCell(after, 6) && SafeCell(after, 7) && SafeCell(after, 8)
  }

  /** An empty tile among the nine leaves a gap. */
  lemma GapAt(cells: seq<Cell>, k: int)
    requires |cells| == 9 && 0 <= k < 9 && cells[k] == Empty
    ensures Gap(cells)
  {
    if k == 0 {
    } else if k == 1 {
    } else if k == 2 {
    } else if k == 3 {
    } else if k == 4 {
    } else if k == 5 {
    } else if k == 6 {
    } else if k == 7 {
    } else {
    }
  }

  /** ForcedCells names every tile of the nine. */
  lemma ForcedCellsEach(cells: seq<Cell>, w: Pos, k: int)
    requires |cells| == 9 && InGrid(w) && ForcedCells(cells, w) && 0 <= k < 9
    ensures BlunderCell(cells, k, w) && SafeCell(cells[Index(w) := X], k)
  {
    if k == 0 {
    } else if k == 1 {
    } else if k == 2 {
    } else if k == 3 {
    } else if k == 4 {
    } else if k == 5 {
    } else if k == 6 {
    } else if k == 7 {
    } else {
    }
  }

  /** ForcedCells is Forced on the position of the nine tiles. */
  lemma ForcedLayout(cells: seq<Cell>, w: Pos)
    requires |cells| == 9 && InGrid(w) && ForcedCells(cells, w)
    ensures Forced(Position(cells), w)
  {
    var g, i := Position(cells), Index(w);
    IndexOrder();
    LayoutAt(cells, w);
    forall c | InGrid(c) && g.tiles[c] == Empty && c != w
      ensures Blunder(g, c, w)
    {
      var k := Index(c);
      LayoutAt(cells, c);
      assert k != i by {
        assert TileAt(k) == c && TileAt(i) == w;
      }
      ForcedCellsEach(cells, w, k);
      GapAt(cells[k := X], i);
      SetLayout(g, cells, c);
      ScoreLayout(cells[k := X], c);
      SetLayout(SetTile(g, c), cells[k := X], w);
      ScoreLayout(cells[k := X][i := O], w);
    }
    var h := SetTile(g, w);
    SetLayout(g, cells, w);
    ScoreLayout(cells[i := X], w);
    if Score(h.tiles, w, None) == None {
      forall d | InGrid(d) && h.tiles[d] == Empty
        ensures Score(SetTile(h, d).tiles, d, None) != Some(1)
      {
        var k := Index(d);
        ForcedCellsEach(cells, w, k);
        LayoutAt(cells[i := X], d);
        SetLayout(h, cells[i := X], d);
        ScoreLayout(cells[i := X][k := O], d);
      }
    }
  }

  /** Each of the nine is the symbol at its row and column, decoded. */
  lemma CellsAt(rows: seq<string>, p: Pos)
    requires |rows| == 3 && (forall r :: 0 <= r < 3 ==> |rows[r]| == 3) && InGrid(p)
    ensures Cells(rows)[Index(p)] == Decode(Nought, Cross, rows[p.row][p.column])
  {
    if p.row == 0 {
    } else if p.row == 1 {
    } else {
    }
  }

  /** A position the rows show is the position of their nine tiles. */
  lemma ShowsCells(g: Game, rows: seq<string>)
    requires Shows(g, rows)
    ensures g == Position(Cells(rows))
  {
    var cells := Cells(rows);
    forall p | InGrid(p)
      ensures g.tiles[p] == Layout(cells)[p]
    {
      LayoutAt(cells, p);
      CellsAt(rows, p);
    }
    assert g.tiles.Keys == Layout(cells).Keys;
    assert g.tiles == Layout(cells);
  }

  /** Noughts threaten the left column at (2,0) and every other tile lets
      them complete it: the search blocks at (2,0) (tictactoe/ai.py:146-150). */
  lemma LeftColumnBlocked(g: Game)
    requires Shows(g, ["\U{25EF}\U{2613}\U{2610}", "\U{25EF}\U{2613}\U{2610}", "\U{2610}\U{25EF}\U{2613}"])
    ensures Search(g, 1).Move? && Search(g, 1).tile == Pos(2, 0)
  {
    ShowsCells(g, ["\U{25EF}\U{2613}\U{2610}", "\U{25EF}\U{2613}\U{2610}", "\U{2610}\U{25EF}\U{2613}"]);
    assert Cells(["\U{25EF}\U{2613}\U{2610}", "\U{25EF}\U{2613}\U{2610}", "\U{2610}\U{25EF}\U{2613}"])
      == [O, X, Empty, O, X, Empty, Empty, O, X];
    LeftColumnForced();
    ForcedChosen(g, Pos(2, 0));
  }

  /** On that board (2,0) is the forced reply. */
  lemma LeftColumnForced()
    ensures Forced(Position([O, X, Empty, O, X, Empty, Empty, O, X]), Pos(2, 0))
  {
    var cells := [O, X, Empty, O, X, Empty, Empty, O, X];
    assert cells[0] == O && cells[1] == X && cells[2] == Empty && cells[3] == O && cells[4] == X
      && cells[5] == Empty && cells[6] == Empty && cells[7] == O && cells[8] == X;
    ForcedLayout(cells, Pos(2, 0));
  }

  /** Noughts threaten the left column at (0,0): the search blocks there
      (tictactoe/ai.py:158-162). */
  lemma TopCornerBlocked(g: Game)
    requires Shows(g, ["\U{2610}\U{2610}\U{2613}", "\U{25EF}\U{2610}\U{2610}", "\U{25EF}\U{2613}\U{2610}"])
    ensures Search(g, 1).Move? && Search(g, 1).tile == Pos(0, 0)
  {
    ShowsCells(g, ["\U{2610}\U{2610}\U{2613}", "\U{25EF}\U{2610}\U{2610}", "\U{25EF}\U{2613}\U{2610}"]);
    assert Cells(["\U{2610}\U{2610}\U{2613}", "\U{25EF}\U{2610}\U{2610}", "\U{25EF}\U{2613}\U{2610}"])
      == [Empty, Empty, X, O, Empty, Empty, O, X, Empty];
    TopCornerForced();
    ForcedChosen(g, Pos(0, 0));
  }

  /** On that board (0,0) is the forced reply. */
  lemma TopCornerForced()
    ensures Forced(Position([Empty, Empty, X, O, Empty, Empty, O, X, Empty]), Pos(0, 0))
  {
    var cells := [Empty, Empty, X, O, Empty, Empty, O, X, Empty];
    assert cells[0] == Empty && cells[1] == Empty && cells[2] == X && cells[3] == O && cells[4] == Empty
      && cells[5] == Empty && cells[6] == O && cells[7] == X && cells[8] == Empty;
    ForcedLayout(cells, Pos(0, 0));
  }

  /** Noughts threaten the anti-diagonal at (2,0): the search blocks there
      (tictactoe/ai.py:164-168). */
  lemma AntiDiagonalBlocked(g: Game)
    requires Shows(g, ["\U{2613}\U{2613}\U{25EF}", "\U{2610}\U{25EF}\U{2610}", "\U{2610}\U{25EF}\U{2613}"])
    ensures Search(g, 1).Move? && Search(g, 1).tile == Pos(2, 0)
  {
    ShowsCells(g, ["\U{2613}\U{2613}\U{25EF}", "\U{2610}\U{25EF}\U{2610}", "\U{2610}\U{25EF}\U{2613}"]);
    assert Cells(["\U{2613}\U{2613}\U{25EF}", "\U{2610}\U{25EF}\U{2610}", "\U{2610}\U{25EF}\U{2613}"])
      == [X, X, O, Empty, O, Empty, Empty, O, X];
    AntiDiagonalForced();
    ForcedChosen(g, Pos(2, 0));
  }

  /** On that board (2,0) is the forced reply. */
  lemma AntiDiagonalForced()
    ensures Forced(Position([X, X, O, Empty, O, Empty, Empty, O, X]), Pos(2, 0))
  {
    var cells := [X, X, O, Empty, O, Empty, Empty, O, X];
    assert cells[0] == X && cells[1] == X && cells[2] == O && cells[3] == Empty && cells[4] == O
      && cells[5] == Empty && cells[6] == Empty && cells[7] == O && cells[8] == X;
    ForcedLayout(cells, Pos(2, 0));
  }

  /** Noughts threaten the middle column at (0,1): the search blocks there
      (tictactoe/ai.py:170-174). */
  lemma MiddleColumnBlocked(g: Game)
    requires Shows(g, ["\U{2610}\U{2610}\U{2610}", "\U{2610}\U{25EF}\U{2610}", "\U{2610}\U{25EF}\U{2613}"])
    ensures Search(g, 1).Move? && Search(g, 1).tile == Pos(0, 1)
  {
    ShowsCells(g, ["\U{2610}\U{2610}\U{2610}", "\U{2610}\U{25EF}\U{2610}", "\U{2610}\U{25EF}\U{2613}"]);
    assert Cells(["\U{2610}\U{2610}\U{2610}", "\U{2610}\U{25EF}\U{2610}", "\U{2610}\U{25EF}\U{2613}"])
      == [Empty, Empty, Empty, Empty, O, Empty, Empty, O, X];
    MiddleColumnForced();
    ForcedChosen(g, Pos(0, 1));
  }

  /** On that board (0,1) is the forced reply. */
  lemma MiddleColumnForced()
    ensures Forced(Position([Empty, Empty, Empty, Empty, O, Empty, Empty, O, X]), Pos(0, 1))
  {
    var cells := [Empty, Empty, Empty, Empty, O, Empty, Empty, O, X];
    assert cells[0] == Empty && cells[1] == Empty && cells[2] == Empty && cells[3] == Empty && cells[4] == O
      && cells[5] == Empty && cells[6] == Empty && cells[7] == O && cells[8] == X;
    ForcedLayout(cells, Pos(0, 1));
  }
}
