/**
  The Monte Carlo tree search of tictactoe/ai.py (MonteCarloSearchAI): a
  memo table, keyed by the rendering of a board, that records for every
  board the search has expanded the wins and visits credited to it and the
  tile that was played to reach it. Each of the 1000 rounds of `play`
  selects a path down the table (the upper-confidence bound picks among
  fully expanded boards), expands one unvisited board, plays the game out
  at random, and credits the result back up to the root; the move played
  is the most visited one.

  The upper-confidence bound is a parameter `ucb(parentVisits, wins,
  visits)`: its floating-point formula is not modelled. The random choices
  are arbitrary choices (`:|`), so every property holds whatever they pick.
 */
module MonteCarlo {
  import opened Common
  import opened TicTacToeBoard
  import TicTacToeSearch

  /** A memo entry: (wins, visits, tile), the tile being the one played to
      reach the board, or None for the root. */
  datatype Stats = Stats(wins: int, visits: int, tile: Option<Pos>)

  type Memo = map<string, Stats>

  /** The key of the board reached from g by playing p. */
  function ChildKey(g: Game, p: Pos): string
    requires Tiles(g.tiles) && InGrid(p)
  {
    Render(SetTile(g, p).tiles)
  }

  // ---------------------------------------------------------------------
  // unvisited_tiles
  // ---------------------------------------------------------------------

  /** The candidates of cs, in order, whose board has no memo entry. */
  function Unvisited(scores: Memo, g: Game, cs: seq<Pos>): seq<Pos>
    requires Tiles(g.tiles) && forall c :: c in cs ==> InGrid(c)
  {
    if cs == [] then []
    else
      var earlier := Unvisited(scores, g, cs[..|cs| - 1]);
      if ChildKey(g, cs[|cs| - 1]) in scores then earlier else earlier + [cs[|cs| - 1]]
  }

  /** unvisited_tiles lists exactly the empty tiles whose board is not in
      the memo table. */
  lemma {:induction false} UnvisitedMeans(scores: Memo, g: Game, cs: seq<Pos>)
    requires Tiles(g.tiles) && forall c :: c in cs ==> InGrid(c)
    ensures forall p :: p in Unvisited(scores, g, cs) <==> p in cs && ChildKey(g, p) !in scores
  {
    if cs != [] {
      UnvisitedMeans(scores, g, cs[..|cs| - 1]);
      assert cs == cs[..|cs| - 1] + [cs[|cs| - 1]];
    }
  }

  /** unvisited_tiles over one more candidate. */
  lemma UnvisitedStep(scores: Memo, g: Game, cs: seq<Pos>, i: nat)
    requires Tiles(g.tiles) && i < |cs| && forall c :: c in cs ==> InGrid(c)
    ensures Unvisited(scores, g, cs[..i + 1])
            == Unvisited(scores, g, cs[..i]) + (if ChildKey(g, cs[i]) in scores then [] else [cs[i]])
  {
    assert cs[..i + 1][..i] == cs[..i];
  }

  // ---------------------------------------------------------------------
  // optimal_tile
  // ---------------------------------------------------------------------

  /** The criterium of the board reached by playing p, read from its entry. */
  function Rank(scores: Memo, g: Game, p: Pos, criterium: (int, int) -> real): real
    requires Tiles(g.tiles) && InGrid(p) && ChildKey(g, p) in scores
  {
    criterium(scores[ChildKey(g, p)].wins, scores[ChildKey(g, p)].visits)
  }

  /** optimal_tile over the candidates cs: among those whose board is in
      the memo table, one with the greatest criterium; as it compares with
      `<=`, the last of equals wins. */
  function Optimal(scores: Memo, g: Game, cs: seq<Pos>, criterium: (int, int) -> real): (r: Option<Pos>)
    requires Tiles(g.tiles) && forall c :: c in cs ==> InGrid(c)
    ensures r.Some? ==> r.value in cs && ChildKey(g, r.value) in scores
  {
    if cs == [] then None
    else
      var best := Optimal(scores, g, cs[..|cs| - 1], criterium);
      var c := cs[|cs| - 1];
      if ChildKey(g, c) !in scores then best
      else if best.None? || Rank(scores, g, best.value, criterium) <= Rank(scores, g, c, criterium) then Some(c)
      else best
  }

  /** optimal_tile over one more candidate. */
  lemma OptimalStep(scores: Memo, g: Game, cs: seq<Pos>, i: nat, criterium: (int, int) -> real)
    requires Tiles(g.tiles) && i < |cs| && forall c :: c in cs ==> InGrid(c)
    ensures var best := Optimal(scores, g, cs[..i], criterium);
      Optimal(scores, g, cs[..i + 1], criterium)
      == if ChildKey(g, cs[i]) !in scores then best
         else if best.None? || Rank(scores, g, best.value, criterium) <= Rank(scores, g, cs[i], criterium) then Some(cs[i])
         else best
  {
    assert cs[..i + 1][..i] == cs[..i];
  }

  /** optimal_tile returns None exactly when no candidate's board is in the
      table. */
  lemma {:induction false} OptimalNone(scores: Memo, g: Game, cs: seq<Pos>, criterium: (int, int) -> real)
    requires Tiles(g.tiles) && forall c :: c in cs ==> InGrid(c)
    ensures Optimal(scores, g, cs, criterium).None? <==> forall c :: c in cs ==> ChildKey(g, c) !in scores
  {
    if cs != [] {
      var init := cs[..|cs| - 1];
      OptimalNone(scores, g, init, criterium);
      assert cs == init + [cs[|cs| - 1]];
    }
  }

  /** optimal_tile's pick has the greatest criterium of all candidates in
      the table. */
  lemma {:induction false} OptimalIsMaximal(scores: Memo, g: Game, cs: seq<Pos>, criterium: (int, int) -> real)
    requires Tiles(g.tiles) && forall c :: c in cs ==> InGrid(c)
    ensures var r := Optimal(scores, g, cs, criterium);
      r.Some? ==> forall c :: c in cs && ChildKey(g, c) in scores ==>
                    Rank(scores, g, c, criterium) <= Rank(scores, g, r.value, criterium)
  {
    if cs != [] {
      var init := cs[..|cs| - 1];
      OptimalIsMaximal(scores, g, init, criterium);
      OptimalNone(scores, g, init, criterium);
      assert cs == init + [cs[|cs| - 1]];
    }
  }

  /** Of equal criteria the last wins: every candidate in the table after
      optimal_tile's pick has a smaller criterium. */
  lemma {:induction false} OptimalIsLast(scores: Memo, g: Game, cs: seq<Pos>, criterium: (int, int) -> real)
    requires Tiles(g.tiles) && forall c :: c in cs ==> InGrid(c)
    requires forall i, j :: 0 <= i < j < |cs| ==> cs[i] != cs[j]
    ensures var r := Optimal(scores, g, cs, criterium);
      r.Some? ==> forall i, j :: 0 <= i < j < |cs| && cs[i] == r.value && ChildKey(g, cs[j]) in scores ==>
                    Rank(scores, g, cs[j], criterium) < Rank(scores, g, r.value, criterium)
  {
    if cs != [] {
      var init := cs[..|cs| - 1];
      OptimalIsLast(scores, g, init, criterium);
      assert forall i :: 0 <= i < |init| ==> init[i] == cs[i];
    }
  }

  /** The choices of a board are distinct. */
  lemma ChoicesDistinct(t: map<Pos, Cell>)
    requires Tiles(t)
    ensures forall c :: c in Choices(t) ==> InGrid(c)
    ensures forall i, j :: 0 <= i < j < |Choices(t)| ==> Choices(t)[i] != Choices(t)[j]
  {
    ChoicesMeans(t);
    forall i, j | 0 <= i < j < |Choices(t)|
      ensures Choices(t)[i] != Choices(t)[j]
    {
      ChoicesOrdered(t, i, j);
    }
  }

  // ---------------------------------------------------------------------
  // playout
  // ---------------------------------------------------------------------

  /** A result s is a possible outcome of playing the game on from g at
      random, scored for `me`, a loss counting as 0. */
  ghost predicate Completion(g: Game, me: Player, s: int)
    requires Tiles(g.tiles)
    decreases Vacancies(g.tiles), 1
  {
    exists c :: InGrid(c) && g.tiles[c] == Empty && Ending(g, c, me, s)
  }

  /** ... the first random move being c. */
  ghost predicate Ending(g: Game, c: Pos, me: Player, s: int)
    requires Tiles(g.tiles) && InGrid(c) && g.tiles[c] == Empty
    decreases Vacancies(g.tiles), 0
  {
    var next := SetTile(g, c);
    match Score(next.tiles, c, Some(me))
    case Some(v) => s == (if v == -1 then 0 else v)
    case None =>
      VacanciesShrink(g.tiles, c, Taken(g.next));
      Completion(next, me, s)
  }

  /** A score is a loss, a draw or a win. */
  lemma ScoreRange(t: map<Pos, Cell>, c: Pos, who: Option<Player>)
    requires Tiles(t) && InGrid(c)
    ensures Score(t, c, who).Some? ==> -1 <= Score(t, c, who).value <= 1
  {
  }

  /** A playout ends in a win (1) or not (0). */
  lemma {:induction false} CompletionRange(g: Game, me: Player, s: int)
    requires Tiles(g.tiles) && Completion(g, me, s)
    ensures s == 0 || s == 1
    decreases Vacancies(g.tiles)
  {
    var c :| InGrid(c) && g.tiles[c] == Empty && Ending(g, c, me, s);
    var next := SetTile(g, c);
    if Score(next.tiles, c, Some(me)).None? {
      VacanciesShrink(g.tiles, c, Taken(g.next));
      CompletionRange(next, me, s);
    }
  }

  // ---------------------------------------------------------------------
  // backpropagate
  // ---------------------------------------------------------------------

  /** An entry credited with one result: the wins grow by the score and the
      visits by one; the tile is kept. */
  function Credited(e: Stats, score: int): Stats {
    Stats(e.wins + score, e.visits + 1, e.tile)
  }

  /** Credit a result to each key of `keys` in turn: the wins grow by the
      score and the visits by one; the tile is kept. */
  function Credit(scores: Memo, keys: seq<string>, score: int): (r: Memo)
    requires forall k :: k in keys ==> k in scores
    ensures r.Keys == scores.Keys
  {
    if keys == [] then scores
    else
      Credit(scores[keys[0] := Credited(scores[keys[0]], score)], keys[1..], score)
  }

  /** Crediting a list of keys credits its first key, then the rest. */
  lemma CreditFirst(scores: Memo, keys: seq<string>, score: int)
    requires keys != [] && forall k :: k in keys ==> k in scores
    ensures Credit(scores, keys, score) == Credit(scores[keys[0] := Credited(scores[keys[0]], score)], keys[1..], score)
  {
  }

  /** Each entry is credited once per occurrence of its key: its wins grow
      by the score and its visits by one each time, and its tile is kept. */
  lemma {:induction false} CreditCounts(scores: Memo, keys: seq<string>, score: int, k: string)
    requires (forall k :: k in keys ==> k in scores) && k in scores
    ensures Credit(scores, keys, score)[k].visits == scores[k].visits + multiset(keys)[k]
    ensures Credit(scores, keys, score)[k].wins == scores[k].wins + score * multiset(keys)[k]
    ensures Credit(scores, keys, score)[k].tile == scores[k].tile
  {
    if keys != [] {
      var next := scores[keys[0] := Credited(scores[keys[0]], score)];
      var r := Credit(next, keys[1..], score);
      CreditFirst(scores, keys, score);
      CreditCounts(next, keys[1..], score, k);
      assert keys == [keys[0]] + keys[1..];
      var n := multiset(keys[1..])[k];
      if k == keys[0] {
        assert multiset(keys)[k] == n + 1;
        assert next[k] == Stats(scores[k].wins + score, scores[k].visits + 1, scores[k].tile);
        assert r[k].wins == scores[k].wins + score + score * n;
        assert score * (n + 1) == score * n + score;
      } else {
        assert multiset(keys)[k] == n;
        assert next[k] == scores[k];
      }
    }
  }

  /** What backpropagate goes through from a board: the keys it credits,
      leaf first, and the board it stops at. */
  datatype Walk = Walk(keys: seq<string>, end: Game)

  /** backpropagate follows the tile recorded in each board's entry, lifting
      it, until an entry records none. None where the source raises: a
      board missing from the table, or a recorded tile that is not a taken
      tile of the board. */
  function Chain(scores: Memo, g: Game): (r: Option<Walk>)
    requires Tiles(g.tiles)
    ensures r.Some? ==> Tiles(r.value.end.tiles) && r.value.keys != [] && r.value.keys[0] == Render(g.tiles)
    ensures r.Some? ==> forall k :: k in r.value.keys ==> k in scores
    decreases 9 - Vacancies(g.tiles)
  {
    var key := Render(g.tiles);
    if key !in scores then None
    else match scores[key].tile
      case None => Some(Walk([key], g))
      case Some(c) =>
        if !InGrid(c) || g.tiles[c] == Empty then None
        else
          VacanciesGrow(g.tiles, c);
          match Chain(scores, ClearTile(g, c))
          case None => None
          case Some(w) => Some(Walk([key] + w.keys, w.end))
  }

  /** One step of the walk: an entry that records a taken tile continues
      the walk from the board that tile's lifting leaves ... */
  lemma ChainLifts(scores: Memo, g: Game, c: Pos)
    requires Tiles(g.tiles) && Render(g.tiles) in scores && scores[Render(g.tiles)].tile == Some(c)
    requires InGrid(c) && g.tiles[c] != Empty
    ensures Tiles(ClearTile(g, c).tiles)
    ensures Chain(scores, g).Some? <==> Chain(scores, ClearTile(g, c)).Some?
    ensures Chain(scores, g).Some? ==>
      Chain(scores, g).value == Walk([Render(g.tiles)] + Chain(scores, ClearTile(g, c)).value.keys,
                                     Chain(scores, ClearTile(g, c)).value.end)
  {
  }

  /** ... and one that records none ends it there. */
  lemma ChainStops(scores: Memo, g: Game)
    requires Tiles(g.tiles) && Render(g.tiles) in scores && scores[Render(g.tiles)].tile.None?
    ensures Chain(scores, g) == Some(Walk([Render(g.tiles)], g))
  {
  }

  /** The walk depends only on which boards are in the table and the tiles
      they record. */
  lemma {:induction false} ChainShape(scores: Memo, other: Memo, g: Game)
    requires Tiles(g.tiles) && scores.Keys == other.Keys
    requires forall k :: k in scores ==> scores[k].tile == other[k].tile
    ensures Chain(scores, g) == Chain(other, g)
    decreases 9 - Vacancies(g.tiles)
  {
    var key := Render(g.tiles);
    if key in scores && scores[key].tile.Some? {
      var c := scores[key].tile.value;
      if InGrid(c) && g.tiles[c] != Empty {
        VacanciesGrow(g.tiles, c);
        ChainShape(scores, other, ClearTile(g, c));
      }
    }
  }

  /** One step of backpropagate: crediting the walk from g is crediting
      g's entry, then the walk from the board that lifting its recorded tile
      leaves, which ends where the walk from g ends. */
  lemma ChainStep(scores: Memo, g: Game, c: Pos, score: int)
    requires Tiles(g.tiles) && Chain(scores, g).Some? && scores[Render(g.tiles)].tile == Some(c)
    ensures InGrid(c) && g.tiles[c] != Empty
    ensures var next := scores[Render(g.tiles) := Credited(scores[Render(g.tiles)], score)];
      && Chain(next, ClearTile(g, c)).Some?
      && Chain(next, ClearTile(g, c)).value.end == Chain(scores, g).value.end
      && Credit(next, Chain(next, ClearTile(g, c)).value.keys, score) == Credit(scores, Chain(scores, g).value.keys, score)
  {
    var key := Render(g.tiles);
    var next := scores[key := Credited(scores[key], score)];
    ChainLifts(scores, g, c);
    VacanciesGrow(g.tiles, c);
    ChainShape(scores, next, ClearTile(g, c));
    var keys := Chain(scores, g).value.keys;
    CreditFirst(scores, keys, score);
    assert keys[1..] == Chain(scores, ClearTile(g, c)).value.keys;
  }

  /** The last step: an entry that records no tile ends the walk at g, with
      only g's entry credited. */
  lemma ChainEnd(scores: Memo, g: Game, score: int)
    requires Tiles(g.tiles) && Chain(scores, g).Some? && scores[Render(g.tiles)].tile.None?
    ensures Chain(scores, g).value.end == g
    ensures Credit(scores, Chain(scores, g).value.keys, score)
            == scores[Render(g.tiles) := Credited(scores[Render(g.tiles)], score)]
  {
    ChainStops(scores, g);
    CreditFirst(scores, [Render(g.tiles)], score);
  }

  /** The memo table is rooted at the board `root`: every drawable board in
      it has at most as many empty tiles as the root, and records either no
      tile, only the root itself, or one of its taken tiles, lifting which
      gives another board in the table. */
  ghost predicate Rooted(scores: Memo, root: map<Pos, Cell>, player: Player, ai: Player) {
    && Tiles(root)
    && forall t :: Tiles(t) && Drawable(t, player, ai) && Render(t) in scores ==>
         && Vacancies(t) <= Vacancies(root)
         && (scores[Render(t)].tile.None? ==> t == root)
         && (scores[Render(t)].tile.Some? ==>
               var c := scores[Render(t)].tile.value;
               InGrid(c) && t[c] != Empty && Render(t[c := Empty]) in scores)
  }

  /** In a table rooted at `root`, backpropagate walks from any board in the
      table back to the root, crediting one board per tile lifted. */
  lemma {:induction false} ChainReturns(scores: Memo, root: map<Pos, Cell>, player: Player, ai: Player, g: Game)
    requires Rooted(scores, root, player, ai)
    requires Tiles(g.tiles) && Drawable(g.tiles, player, ai) && Render(g.tiles) in scores
    ensures Chain(scores, g).Some? && Chain(scores, g).value.end.tiles == root
    ensures |Chain(scores, g).value.keys| == Vacancies(root) - Vacancies(g.tiles) + 1
    decreases Vacancies(root) - Vacancies(g.tiles)
  {
    var key := Render(g.tiles);
    match scores[key].tile
    case None =>
    case Some(c) =>
      VacanciesGrow(g.tiles, c);
      var up := ClearTile(g, c);
      assert Drawable(up.tiles, player, ai);
      ChainReturns(scores, root, player, ai, up);
  }

  /** The nine empty tiles. */
  function Blank(): (t: map<Pos, Cell>)
    ensures Tiles(t) && forall p :: p in t ==> t[p] == Empty
  {
    GridIsTiles();
    map p | p in Grid :: Empty
  }

  // A table carried over from the previous move. The previous search was
  // rooted at StaleRoot (X, the human, in a corner); it reached Reached by
  // O in the centre, X at the top and O in the opposite corner. The moves
  // played since (O in the opposite corner, X at the top) make NewRoot the
  // root of the next search, and Reached is a child of NewRoot.

  const Human := Player('X')
  const Machine := Player('O')
  const StaleRoot := Blank()[Pos(0, 0) := Taken(Human)]
  const ViaCentre := StaleRoot[Pos(1, 1) := Taken(Machine)]
  const ViaTop := ViaCentre[Pos(0, 1) := Taken(Human)]
  const NewRoot := StaleRoot[Pos(2, 2) := Taken(Machine)][Pos(0, 1) := Taken(Human)]
  const Reached := NewRoot[Pos(1, 1) := Taken(Machine)]

  /** The table after the next search has made NewRoot its root. */
  function StaleMemo(): Memo {
    map[Render(StaleRoot) := Stats(0, 1, None), Render(ViaCentre) := Stats(0, 1, Some(Pos(1, 1))),
        Render(ViaTop) := Stats(0, 1, Some(Pos(0, 1))), Render(Reached) := Stats(0, 1, Some(Pos(2, 2))),
        Render(NewRoot) := Stats(0, 1, None)]
  }

  /** The renderings of the five boards differ pairwise, at character 1,
      5 or 10: the tiles (0, 1), (1, 1) and (2, 2). */
  lemma StaleKeysDistinct()
    ensures Render(StaleRoot)[1] != Render(ViaTop)[1] && Render(StaleRoot)[5] != Render(ViaCentre)[5]
    ensures Render(StaleRoot)[10] != Render(Reached)[10] && Render(StaleRoot)[10] != Render(NewRoot)[10]
    ensures Render(ViaCentre)[1] != Render(ViaTop)[1] && Render(ViaCentre)[10] != Render(Reached)[10]
    ensures Render(ViaCentre)[10] != Render(NewRoot)[10] && Render(ViaTop)[10] != Render(Reached)[10]
    ensures Render(ViaTop)[5] != Render(NewRoot)[5] && Render(Reached)[5] != Render(NewRoot)[5]
  {
  }

  /** What the table records for each board of the walk. */
  lemma StaleEntries()
    ensures Render(StaleRoot) in StaleMemo() && StaleMemo()[Render(StaleRoot)].tile == None
    ensures Render(ViaCentre) in StaleMemo() && StaleMemo()[Render(ViaCentre)].tile == Some(Pos(1, 1))
    ensures Render(ViaTop) in StaleMemo() && StaleMemo()[Render(ViaTop)].tile == Some(Pos(0, 1))
    ensures Render(Reached) in StaleMemo() && StaleMemo()[Render(Reached)].tile == Some(Pos(2, 2))
  {
    StaleKeysDistinct();
  }

  /** Lifting the recorded tiles leads from Reached back to StaleRoot. */
  lemma StaleLifts()
    ensures Reached[Pos(2, 2) := Empty] == ViaTop
    ensures ViaTop[Pos(0, 1) := Empty] == ViaCentre
    ensures ViaCentre[Pos(1, 1) := Empty] == StaleRoot
    ensures Reached[Pos(2, 2)] != Empty && ViaTop[Pos(0, 1)] != Empty && ViaCentre[Pos(1, 1)] != Empty
    ensures StaleRoot != NewRoot
  {
    assert StaleRoot[Pos(2, 2)] != NewRoot[Pos(2, 2)];
  }

  /** From Reached, with X to move, backpropagate walks back to StaleRoot,
      not to NewRoot. */
  lemma StaleChainMissesRoot()
    ensures Chain(StaleMemo(), Game(Human, Machine, Reached, Human, Machine)).Some?
    ensures Chain(StaleMemo(), Game(Human, Machine, Reached, Human, Machine)).value.end.tiles == StaleRoot
    ensures StaleRoot != NewRoot
  {
    StaleEntries();
    StaleLifts();
    var m := StaleMemo();
    var g3 := Game(Human, Machine, StaleRoot, Machine, Human);
    var g2 := Game(Human, Machine, ViaCentre, Human, Machine);
    var g1 := Game(Human, Machine, ViaTop, Machine, Human);
    var g0 := Game(Human, Machine, Reached, Human, Machine);
    assert Chain(m, g3) == Some(Walk([Render(StaleRoot)], g3));
    assert ClearTile(g2, Pos(1, 1)) == g3;
    assert Chain(m, g2).value.end == g3;
    assert ClearTile(g1, Pos(0, 1)) == g2;
    assert Chain(m, g1).value.end == g3;
    assert ClearTile(g0, Pos(2, 2)) == g1;
  }

  // A fresh table in which one board was first reached along another path.
  // The search from the empty board first expanded X at the top right, O in
  // the centre and X at the top left, so the entry of Transposed records the
  // top left and its parents record the top right and the centre. A later
  // selection plays the top left, the centre and the top right, and reaches
  // the same board.

  const Start := Game(Human, Machine, Blank(), Human, Machine)
  const TopRight := Blank()[Pos(0, 2) := Taken(Human)]
  const TopRightCentre := TopRight[Pos(1, 1) := Taken(Machine)]
  const Transposed := TopRightCentre[Pos(0, 0) := Taken(Human)]

  /** The table after the first expansions, rooted at the empty board. */
  function TransposedMemo(): Memo {
    map[Render(Blank()) := Stats(0, 1, None), Render(TopRight) := Stats(0, 1, Some(Pos(0, 2))),
        Render(TopRightCentre) := Stats(0, 1, Some(Pos(1, 1))), Render(Transposed) := Stats(0, 1, Some(Pos(0, 0)))]
  }

  /** The renderings differ at character 0, 2 or 5: the tiles (0, 0),
      (0, 2) and (1, 1). */
  lemma TransposedKeysDistinct()
    ensures Render(Blank())[2] != Render(TopRight)[2] && Render(Blank())[2] != Render(TopRightCentre)[2]
    ensures Render(Blank())[2] != Render(Transposed)[2] && Render(TopRight)[5] != Render(TopRightCentre)[5]
    ensures Render(TopRight)[5] != Render(Transposed)[5] && Render(TopRightCentre)[0] != Render(Transposed)[0]
    ensures Render(ViaCentre)[2] != Render(TopRightCentre)[2] && Render(ViaCentre)[2] != Render(Transposed)[2]
    ensures Render(StaleRoot)[2] != Render(TopRightCentre)[2] && Render(StaleRoot)[2] != Render(Transposed)[2]
    ensures Render(StaleRoot)[0] != Render(Blank())[0] && Render(StaleRoot)[0] != Render(TopRight)[0]
    ensures Render(ViaCentre)[0] != Render(Blank())[0] && Render(ViaCentre)[0] != Render(TopRight)[0]
  {
  }

  /** The boards only one of the two walks passes differ from every board
      of the other. */
  lemma TransposedRendersDiffer()
    ensures Render(ViaCentre) != Render(Transposed) && Render(ViaCentre) != Render(TopRightCentre)
    ensures Render(ViaCentre) != Render(TopRight) && Render(ViaCentre) != Render(Blank())
    ensures Render(TopRightCentre) != Render(Transposed) && Render(TopRightCentre) != Render(StaleRoot)
    ensures Render(TopRightCentre) != Render(Blank())
  {
    TransposedKeysDistinct();
  }

  /** The selected path plays X at the top left, O in the centre and X at
      the top right, passing StaleRoot and ViaCentre and ending at
      Transposed. */
  lemma TransposedPath()
    ensures Played(Start, [Pos(0, 0)]).tiles == StaleRoot
    ensures Played(Start, [Pos(0, 0), Pos(1, 1)]).tiles == ViaCentre
    ensures Played(Start, [Pos(0, 0), Pos(1, 1), Pos(0, 2)]).tiles == Transposed
    ensures Played(Start, [Pos(0, 0), Pos(1, 1), Pos(0, 2)]) == Game(Human, Machine, Transposed, Machine, Human)
  {
    var p := [Pos(0, 0), Pos(1, 1), Pos(0, 2)];
    assert p[..2] == [Pos(0, 0), Pos(1, 1)] && p[..2][..1] == [Pos(0, 0)] && [Pos(0, 0)][..0] == [];
    assert StaleRoot.Keys == Blank()[Pos(0, 0) := Taken(Human)].Keys;
    assert Transposed.Keys == ViaCentre[Pos(0, 2) := Taken(Human)].Keys;
    assert Transposed == ViaCentre[Pos(0, 2) := Taken(Human)];
  }

  /** What the fresh table records for each board. */
  lemma TransposedEntries()
    ensures Render(Blank()) in TransposedMemo() && TransposedMemo()[Render(Blank())].tile == None
    ensures Render(TopRight) in TransposedMemo() && TransposedMemo()[Render(TopRight)].tile == Some(Pos(0, 2))
    ensures Render(TopRightCentre) in TransposedMemo() && TransposedMemo()[Render(TopRightCentre)].tile == Some(Pos(1, 1))
    ensures Render(Transposed) in TransposedMemo() && TransposedMemo()[Render(Transposed)].tile == Some(Pos(0, 0))
  {
    TransposedKeysDistinct();
  }

  /** backpropagate from Transposed lifts the recorded tiles: the top left,
      the centre, the top right. */
  lemma TransposedChain()
    ensures var w := Chain(TransposedMemo(), Game(Human, Machine, Transposed, Machine, Human));
      && w.Some? && w.value.end == Start
      && w.value.keys == [Render(Transposed), Render(TopRightCentre), Render(TopRight), Render(Blank())]
  {
    TransposedEntries();
    var m := TransposedMemo();
    var g1 := Game(Human, Machine, TopRight, Machine, Human);
    var g2 := Game(Human, Machine, TopRightCentre, Human, Machine);
    var g3 := Game(Human, Machine, Transposed, Machine, Human);
    ChainStops(m, Start);
    assert TopRight[Pos(0, 2) := Empty] == Blank();
    assert ClearTile(g1, Pos(0, 2)) == Start;
    ChainLifts(m, g1, Pos(0, 2));
    assert Chain(m, g1).value.keys == [Render(TopRight)] + [Render(Blank())];
    assert TopRightCentre[Pos(1, 1) := Empty] == TopRight;
    assert ClearTile(g2, Pos(1, 1)) == g1;
    ChainLifts(m, g2, Pos(1, 1));
    assert Chain(m, g2).value.keys == [Render(TopRightCentre)] + [Render(TopRight), Render(Blank())];
    assert Transposed[Pos(0, 0) := Empty] == TopRightCentre;
    assert ClearTile(g3, Pos(0, 0)) == g2;
    ChainLifts(m, g3, Pos(0, 0));
    assert Chain(m, g3).value.keys == [Render(Transposed)] + [Render(TopRightCentre), Render(TopRight), Render(Blank())];
  }

  /** The trail of the selected path passes the boards selection played. */
  lemma TransposedTrail()
    ensures Trail(Start, [Pos(0, 0), Pos(1, 1), Pos(0, 2)])
      == [Render(Transposed), Render(ViaCentre), Render(StaleRoot), Render(Blank())]
  {
    var path := [Pos(0, 0), Pos(1, 1), Pos(0, 2)];
    TransposedPath();
    assert path[..2] == [Pos(0, 0), Pos(1, 1)] && path[..2][..1] == [Pos(0, 0)] && [Pos(0, 0)][..0] == [];
    assert Trail(Start, [Pos(0, 0)]) == [Render(StaleRoot)] + [Render(Blank())];
    assert Trail(Start, path[..2]) == [Render(ViaCentre)] + [Render(StaleRoot), Render(Blank())];
    assert Trail(Start, path) == [Render(Transposed)] + [Render(ViaCentre), Render(StaleRoot), Render(Blank())];
  }

  /** On a fresh table, backpropagate from the board a later selection
      reached credits the boards of the path first expanded to it (X at the
      top right, then O in the centre), not those of the path selection
      took (X at the top left, then O in the centre). */
  lemma TranspositionCreditsOtherPath()
    ensures var path := [Pos(0, 0), Pos(1, 1), Pos(0, 2)];
      && Chain(TransposedMemo(), Played(Start, path)).Some?
      && Chain(TransposedMemo(), Played(Start, path)).value.keys
           == [Render(Transposed), Render(TopRightCentre), Render(TopRight), Render(Blank())]
      && Trail(Start, path) == [Render(Transposed), Render(ViaCentre), Render(StaleRoot), Render(Blank())]
      && Render(ViaCentre) !in Chain(TransposedMemo(), Played(Start, path)).value.keys
      && Render(TopRightCentre) !in Trail(Start, path)
  {
    TransposedPath();
    TransposedChain();
    TransposedTrail();
    TransposedRendersDiffer();
  }

  // ---------------------------------------------------------------------
  // The path select takes
  // ---------------------------------------------------------------------

  /** The board reached from g by playing the tiles of the path in turn. */
  function Played(g: Game, path: seq<Pos>): (r: Game)
    requires Tiles(g.tiles) && forall c :: c in path ==> InGrid(c)
    ensures Tiles(r.tiles) && (Turns(g) ==> Turns(r))
  {
    if path == [] then g else SetTile(Played(g, path[..|path| - 1]), path[|path| - 1])
  }

  /** Every tile of the path is empty when it is played. */
  ghost predicate Legal(g: Game, path: seq<Pos>)
    requires Tiles(g.tiles) && forall c :: c in path ==> InGrid(c)
  {
    path == [] || (Legal(g, path[..|path| - 1]) && Played(g, path[..|path| - 1]).tiles[path[|path| - 1]] == Empty)
  }

  /** The keys of the boards along the path, from its end back to g. */
  function Trail(g: Game, path: seq<Pos>): (keys: seq<string>)
    requires Tiles(g.tiles) && forall c :: c in path ==> InGrid(c)
  {
    [Render(Played(g, path).tiles)] + if path == [] then [] else Trail(g, path[..|path| - 1])
  }

  /** The trail of a path is its end's key, then the trail of the path
      without its last tile. */
  lemma TrailLast(g: Game, path: seq<Pos>)
    requires Tiles(g.tiles) && path != [] && forall c :: c in path ==> InGrid(c)
    ensures Trail(g, path)[0] == Render(Played(g, path).tiles)
    ensures Trail(g, path)[1..] == Trail(g, path[..|path| - 1])
  {
  }

  /** One step of the credit along a path: its end's entry, then the rest
      of the trail. */
  lemma TrailStep(scores: Memo, g: Game, path: seq<Pos>, score: int)
    requires Tiles(g.tiles) && path != [] && forall c :: c in path ==> InGrid(c)
    requires forall k :: k in Trail(g, path) ==> k in scores
    ensures var key := Render(Played(g, path).tiles);
      var next := scores[key := Credited(scores[key], score)];
      && (forall k :: k in Trail(g, path[..|path| - 1]) ==> k in next)
      && Credit(scores, Trail(g, path), score) == Credit(next, Trail(g, path[..|path| - 1]), score)
  {
    TrailLast(g, path);
    CreditFirst(scores, Trail(g, path), score);
  }

  /** The credit along the empty path is the credit of g's entry. */
  lemma TrailEnd(scores: Memo, g: Game, score: int)
    requires Tiles(g.tiles) && Render(g.tiles) in scores
    ensures Credit(scores, Trail(g, []), score) == scores[Render(g.tiles) := Credited(scores[Render(g.tiles)], score)]
  {
    CreditFirst(scores, Trail(g, []), score);
  }

  /** A path that starts with c leads where the rest of it leads from the
      board c gives. */
  lemma {:induction false} PrependPlayed(g: Game, c: Pos, path: seq<Pos>)
    requires Tiles(g.tiles) && InGrid(c) && forall p :: p in path ==> InGrid(p)
    ensures Played(g, [c] + path) == Played(SetTile(g, c), path)
  {
    if path == [] {
      assert ([c] + path)[..0] == [];
    } else {
      var init := path[..|path| - 1];
      assert forall p :: p in init ==> p in path;
      PrependPlayed(g, c, init);
      DropLastPrepended(c, path);
    }
  }

  /** ... is legal when c is empty and the rest is legal from there ... */
  lemma {:induction false} PrependLegal(g: Game, c: Pos, path: seq<Pos>)
    requires Tiles(g.tiles) && InGrid(c) && forall p :: p in path ==> InGrid(p)
    ensures Legal(g, [c] + path) <==> g.tiles[c] == Empty && Legal(SetTile(g, c), path)
  {
    if path == [] {
      assert ([c] + path)[..0] == [];
    } else {
      var init := path[..|path| - 1];
      assert forall p :: p in init ==> p in path;
      PrependLegal(g, c, init);
      PrependPlayed(g, c, init);
      DropLastPrepended(c, path);
    }
  }

  /** ... and passes through the boards of the rest, then g. */
  lemma {:induction false} PrependTrail(g: Game, c: Pos, path: seq<Pos>)
    requires Tiles(g.tiles) && InGrid(c) && forall p :: p in path ==> InGrid(p)
    ensures Trail(g, [c] + path) == Trail(SetTile(g, c), path) + [Render(g.tiles)]
  {
    PrependPlayed(g, c, path);
    if path == [] {
      assert ([c] + path)[..0] == [];
    } else {
      var init := path[..|path| - 1];
      var whole := [c] + path;
      assert forall p :: p in init ==> p in path;
      var h := SetTile(g, c);
      PrependTrail(g, c, init);
      DropLastPrepended(c, path);
      TrailLast(g, whole);
      TrailLast(h, path);
      var head, tail := [Render(Played(h, path).tiles)], Trail(h, init);
      assert Trail(g, whole) == head + (tail + [Render(g.tiles)]);
      assert Trail(h, path) == head + tail;
      AppendAssociates(head, tail, [Render(g.tiles)]);
    }
  }

  /** Dropping the last element of a sequence with x in front. */
  lemma DropLastPrepended<T>(x: T, s: seq<T>)
    requires s != []
    ensures ([x] + s)[..|s|] == [x] + s[..|s| - 1] && ([x] + s)[|s|] == s[|s| - 1]
  {
  }

  /** Concatenation of sequences associates. */
  lemma AppendAssociates<T>(a: seq<T>, b: seq<T>, c: seq<T>)
    ensures a + (b + c) == (a + b) + c
  {
  }

  /** What select does, from the board g and the table `before`: it plays
      a legal path, which leaves the board at `now`; every board along the
      path, the first move's among them, is in the table `after`; the
      entries of `before` are kept; and the only entry added is the final
      board's, with no wins, no visits and the last tile of the path. */
  ghost predicate Selected(g: Game, path: seq<Pos>, before: Memo, after: Memo, now: Game)
    requires Tiles(g.tiles)
  {
    && path != [] && (forall c :: c in path ==> InGrid(c))
    && Legal(g, path) && now == Played(g, path)
    && (forall k :: k in Trail(g, path) ==> k in after)
    && ChildKey(g, path[0]) in after
    && (forall k :: k in before ==> k in after && after[k] == before[k])
    && (forall k :: k in after && k !in before ==> k == Render(now.tiles) && after[k] == Stats(0, 0, Some(path[|path| - 1])))
  }

  /** A path of one move, to a board that either was in the table or is
      its one new entry. */
  lemma SelectedOne(g: Game, c: Pos, before: Memo, after: Memo)
    requires Tiles(g.tiles) && InGrid(c) && g.tiles[c] == Empty && Render(g.tiles) in before
    requires ChildKey(g, c) in after && forall k :: k in before ==> k in after && after[k] == before[k]
    requires forall k :: k in after && k !in before ==> k == ChildKey(g, c) && after[k] == Stats(0, 0, Some(c))
    ensures Selected(g, [c], before, after, SetTile(g, c))
  {
    PrependPlayed(g, c, []);
    PrependLegal(g, c, []);
    PrependTrail(g, c, []);
  }

  /** A path of one move to a board new to the table, which is recorded
      with no wins, no visits and that move. */
  lemma SelectedNew(g: Game, c: Pos, before: Memo)
    requires Tiles(g.tiles) && InGrid(c) && g.tiles[c] == Empty && Render(g.tiles) in before
    requires ChildKey(g, c) !in before
    ensures Selected(g, [c], before, before[ChildKey(g, c) := Stats(0, 0, Some(c))], SetTile(g, c))
  {
    SelectedOne(g, c, before, before[ChildKey(g, c) := Stats(0, 0, Some(c))]);
  }

  /** A move to a board in the table, followed by what select does from
      there. */
  lemma SelectedPrepend(g: Game, c: Pos, rest: seq<Pos>, before: Memo, after: Memo, now: Game)
    requires Tiles(g.tiles) && InGrid(c) && g.tiles[c] == Empty
    requires Render(g.tiles) in before && ChildKey(g, c) in before
    requires Selected(SetTile(g, c), rest, before, after, now)
    ensures Selected(g, [c] + rest, before, after, now)
    ensures ([c] + rest)[0] == c && ([c] + rest)[|rest|] == rest[|rest| - 1]
  {
    var path := [c] + rest;
    var h := SetTile(g, c);
    assert rest != [] && Legal(h, rest) && now == Played(h, rest);
    assert forall p :: p in rest ==> InGrid(p);
    assert forall k :: k in Trail(h, rest) ==> k in after;
    PrependPath(g, c, rest, after);
    assert path[|path| - 1] == rest[|rest| - 1];
    assert forall k :: k in after && k !in before ==> k == Render(now.tiles) && after[k] == Stats(0, 0, Some(path[|path| - 1]));
  }

  /** The path half of SelectedPrepend: moves, legality and boards. */
  lemma PrependPath(g: Game, c: Pos, rest: seq<Pos>, after: Memo)
    requires Tiles(g.tiles) && InGrid(c) && g.tiles[c] == Empty && Render(g.tiles) in after
    requires forall p :: p in rest ==> InGrid(p)
    requires Legal(SetTile(g, c), rest)
    requires forall k :: k in Trail(SetTile(g, c), rest) ==> k in after
    ensures forall p :: p in [c] + rest ==> InGrid(p)
    ensures Legal(g, [c] + rest) && Played(g, [c] + rest) == Played(SetTile(g, c), rest)
    ensures forall k :: k in Trail(g, [c] + rest) ==> k in after
  {
    PrependPlayed(g, c, rest);
    PrependLegal(g, c, rest);
    PrependTrail(g, c, rest);
  }

  /** The criterium select descends by: the upper-confidence bound of a
      child, or its negation when the opponent is to move. */
  function Bound(ucb: (int, int, int) -> real, parentVisits: int, mine: bool): (int, int) -> real {
    if mine then (wins, visits) => ucb(parentVisits, wins, visits)
    else (wins, visits) => -ucb(parentVisits, wins, visits)
  }

  /** Every choice on g leads to a board already in the table. */
  ghost predicate Explored(scores: Memo, g: Game)
    requires Tiles(g.tiles)
  {
    forall p :: InGrid(p) && g.tiles[p] == Empty ==> ChildKey(g, p) in scores
  }

  /** The choice select descends to from g: the optimal one by the bound
      for a parent visited parentVisits times. */
  ghost function Descent(scores: Memo, g: Game, ucb: (int, int, int) -> real, parentVisits: int, me: Player): Option<Pos>
    requires Tiles(g.tiles)
  {
    ChoicesMeans(g.tiles);
    Optimal(scores, g, Choices(g.tiles), Bound(ucb, parentVisits, g.next == me))
  }

  /** What select reports for the board `now` its last move c reached: the
      score of c for `me` when c ends the game, otherwise an outcome of a
      playout from `now`. */
  ghost predicate Reported(now: Game, c: Pos, me: Player, s: int)
    requires Tiles(now.tiles) && InGrid(c)
  {
    match Score(now.tiles, c, Some(me))
    case Some(v) => s == v
    case None => Completion(now, me, s)
  }

  /** Such a report is a loss, a draw or a win. */
  lemma ReportedRange(now: Game, c: Pos, me: Player, s: int)
    requires Tiles(now.tiles) && InGrid(c) && Reported(now, c, me, s)
    ensures -1 <= s <= 1
  {
    if Score(now.tiles, c, Some(me)).None? {
      CompletionRange(now, me, s);
    } else {
      ScoreRange(now.tiles, c, Some(me));
    }
  }

  /** The trail of a path passes through the board it starts from. */
  lemma {:induction false} RootInTrail(g: Game, path: seq<Pos>)
    requires Tiles(g.tiles) && forall c :: c in path ==> InGrid(c)
    ensures multiset(Trail(g, path))[Render(g.tiles)] >= 1
    decreases |path|
  {
    if path != [] {
      var init := path[..|path| - 1];
      assert forall c :: c in init ==> c in path;
      RootInTrail(g, init);
      TrailLast(g, path);
      assert Trail(g, path) == [Trail(g, path)[0]] + Trail(g, init);
    }
  }

  /** The final choice's criterium: the number of visits. */
  function Visits(wins: int, visits: int): real {
    visits as real
  }

  class MonteCarloSearch {
    /** The player the search plays for (`self` in the source). */
    const me: Player
    /** The memo table, kept from one move to the next. */
    var scores: Memo

    /** MonteCarloSearchAI(...): an empty memo table. */
    constructor (me: Player)
      ensures this.me == me && scores == map[]
    {
      this.me := me;
      scores := map[];
    }

    /** MonteCarloSearchAI.reset: the memo table is emptied. */
    method Reset()
      modifies this
      ensures scores == map[]
    {
      scores := map[];
    }

    /** The step both loops below take for each choice: play the tile, read
        the board's key, and lift the tile again. */
    method Probe(game: TicTacToe, tile: Pos) returns (key: string)
      requires game.Valid() && Turns(game.Model()) && InGrid(tile) && game.tiles[tile] == Empty
      modifies game
      ensures game.Valid() && game.Model() == old(game.Model())
      ensures key == ChildKey(old(game.Model()), tile)
    {
      ghost var G := game.Model();
      var outcome := game.Set(tile);
      key := Render(game.tiles);
      outcome := game.Clear(tile);
      SetThenClear(G, tile);
    }

    /** unvisited_tiles: try every choice and keep those whose board has no
        entry; the board is left as it was. */
    method UnvisitedTiles(game: TicTacToe) returns (r: seq<Pos>)
      requires game.Valid() && Turns(game.Model())
      modifies game
      ensures game.Valid() && game.Model() == old(game.Model())
      ensures forall c :: c in Choices(game.tiles) ==> InGrid(c)
      ensures r == Unvisited(scores, game.Model(), Choices(game.tiles))
      ensures forall p :: p in r <==> InGrid(p) && game.tiles[p] == Empty && ChildKey(game.Model(), p) !in scores
    {
      ghost var G := game.Model();
      var choices := Choices(game.tiles);
      ChoicesMeans(G.tiles);
      r := [];
      var i := 0;
      while i < |choices|
        invariant 0 <= i <= |choices|
        invariant game.Valid() && game.Model() == G
        invariant r == Unvisited(scores, G, choices[..i])
      {
        var tile := choices[i];
        var key := Probe(game, tile);
        if key !in scores {
          r := r + [tile];
        }
        UnvisitedStep(scores, G, choices, i);
        i := i + 1;
      }
      assert choices[..i] == choices;
      UnvisitedMeans(scores, G, choices);
    }

    /** optimal_tile: try every choice and keep the last one whose board
        has the greatest criterium; the board is left as it was. */
    method OptimalTile(game: TicTacToe, criterium: (int, int) -> real) returns (best: Option<Pos>)
      requires game.Valid() && Turns(game.Model())
      modifies game
      ensures game.Valid() && game.Model() == old(game.Model())
      ensures forall c :: c in Choices(game.tiles) ==> InGrid(c)
      ensures best == Optimal(scores, game.Model(), Choices(game.tiles), criterium)
    {
      ghost var G := game.Model();
      var choices := Choices(game.tiles);
      ChoicesMeans(G.tiles);
      var bestCriterium: Option<real> := None;
      best := None;
      var i := 0;
      while i < |choices|
        invariant 0 <= i <= |choices|
        invariant game.Valid() && game.Model() == G
        invariant best == Optimal(scores, G, choices[..i], criterium)
        invariant bestCriterium.Some? <==> best.Some?
        invariant best.Some? ==> bestCriterium.value == Rank(scores, G, best.value, criterium)
      {
        var tile := choices[i];
        var key := Probe(game, tile);
        if key in scores {
          var entry := scores[key];
          if bestCriterium.None? || bestCriterium.value <= criterium(entry.wins, entry.visits) {
            bestCriterium, best := Some(criterium(entry.wins, entry.visits)), Some(tile);
          }
        }
        OptimalStep(scores, G, choices, i, criterium);
        i := i + 1;
      }
      assert choices[..i] == choices;
    }

    /** playout: play a random empty tile; unless that ends the game, play
        on from there; lift the tile again. The result is an outcome of the
        game played on at random, and the board is left as it was. */
    method Playout(game: TicTacToe) returns (score: int)
      requires game.Valid() && Turns(game.Model()) && Vacancies(game.tiles) > 0
      modifies game
      decreases Vacancies(game.tiles)
      ensures game.Valid() && game.Model() == old(game.Model())
      ensures Completion(old(game.Model()), me, score)
    {
      ghost var G := game.Model();
      var choices := Choices(game.tiles);
      ChoicesMeans(G.tiles);
      VacanciesCount(G.tiles);
      assert choices[0] in choices;
      var tile :| tile in choices;
      var outcome := game.Set(tile);
      ghost var next := game.Model();
      SetThenClear(G, tile);
      var result := Score(game.tiles, tile, Some(me));
      if result.None? {
        TicTacToeSearch.UnsettledHasChoices(next.tiles, tile, Some(me));
        VacanciesShrink(G.tiles, tile, Taken(G.next));
        score := Playout(game);
      } else {
        score := if result.value == -1 then 0 else result.value;
      }
      assert Ending(G, tile, me, score);
      outcome := game.Clear(tile);
    }

    /** backpropagate, as the source has it: credit the score to the
        board's entry, and while the entry records a tile, lift that tile
        and credit the board it leaves. */
    method Backpropagate(game: TicTacToe, score: int)
      requires game.Valid() && Chain(scores, game.Model()).Some?
      modifies this, game
      decreases 9 - Vacancies(game.tiles)
      ensures game.Valid()
      ensures game.Model() == Chain(old(scores), old(game.Model())).value.end
      ensures scores == Credit(old(scores), Chain(old(scores), old(game.Model())).value.keys, score)
    {
      ghost var G := game.Model();
      ghost var before := scores;
      var key := Render(game.tiles);
      var entry := scores[key];
      scores := scores[key := Credited(entry, score)];
      if entry.tile.Some? {
        var tile := entry.tile.value;
        ChainStep(before, G, tile, score);
        var outcome := game.Clear(tile);
        VacanciesGrow(G.tiles, tile);
        Backpropagate(game, score);
      } else {
        ChainEnd(before, G, score);
      }
    }

    /** Credit the score along the path select took, from its end back to
        g: each board's entry is credited, and the path's tiles are lifted
        one by one, so the board ends as g whatever the table holds. */
    method Retrace(game: TicTacToe, ghost g: Game, path: seq<Pos>, score: int)
      requires game.Valid() && Tiles(g.tiles) && Turns(g)
      requires (forall c :: c in path ==> InGrid(c)) && Legal(g, path) && game.Model() == Played(g, path)
      requires forall k :: k in Trail(g, path) ==> k in scores
      modifies this, game
      decreases |path|
      ensures game.Valid() && game.Model() == g
      ensures scores == Credit(old(scores), Trail(g, path), score)
    {
      ghost var before := scores;
      var key := Render(game.tiles);
      var entry := scores[key];
      scores := scores[key := Credited(entry, score)];
      if path != [] {
        var init := path[..|path| - 1];
        var tile := path[|path| - 1];
        TrailStep(before, g, path, score);
        var outcome := game.Clear(tile);
        SetThenClear(Played(g, init), tile);
        Retrace(game, g, init, score);
      } else {
        TrailEnd(before, g, score);
      }
    }

    /** select: on a board every choice of which is in the table, descend;
        otherwise expand. The score is that of the finished game, or of
        the playout, for `me`. */
    method Select(game: TicTacToe, ucb: (int, int, int) -> real) returns (score: int, path: seq<Pos>)
      requires game.Valid() && Turns(game.Model()) && Vacancies(game.tiles) > 0
      requires Render(game.tiles) in scores
      modifies this, game
      decreases Vacancies(game.tiles), 1
      ensures game.Valid() && Selected(old(game.Model()), path, old(scores), scores, game.Model())
      ensures Reported(game.Model(), path[|path| - 1], me, score) && -1 <= score <= 1
      ensures Explored(old(scores), old(game.Model()))
        ==> Some(path[0]) == Descent(old(scores), old(game.Model()), ucb, old(scores)[Render(old(game.tiles))].visits, me)
      ensures !Explored(old(scores), old(game.Model()))
        ==> |path| == 1 && old(game.tiles)[path[0]] == Empty && ChildKey(old(game.Model()), path[0]) !in old(scores)
    {
      var parent := scores[Render(game.tiles)];
      var unvisited := UnvisitedTiles(game);
      if unvisited == [] {
        score, path := Descend(game, parent.visits, ucb);
      } else {
        score, path := Expand(game, unvisited);
      }
    }

    /** select's descent: move to the choice whose board has the best
        bound (the greatest when `me` is to play, the least otherwise), and
        select on from there unless that ends the game. */
    method Descend(game: TicTacToe, parentVisits: int, ucb: (int, int, int) -> real) returns (score: int, path: seq<Pos>)
      requires game.Valid() && Turns(game.Model()) && Vacancies(game.tiles) > 0
      requires Render(game.tiles) in scores
      requires Explored(scores, game.Model())
      modifies this, game
      decreases Vacancies(game.tiles), 0
      ensures game.Valid() && Selected(old(game.Model()), path, old(scores), scores, game.Model())
      ensures Reported(game.Model(), path[|path| - 1], me, score) && -1 <= score <= 1
      ensures Some(path[0]) == Descent(old(scores), old(game.Model()), ucb, parentVisits, me)
    {
      ghost var G := game.Model();
      ghost var before := scores;
      var criterium := Bound(ucb, parentVisits, game.nextPlayer == me);
      var best := OptimalTile(game, criterium);
      ChoicesMeans(G.tiles);
      VacanciesCount(G.tiles);
      assert Choices(G.tiles)[0] in Choices(G.tiles);
      OptimalNone(scores, G, Choices(G.tiles), criterium);
      assert Some(best.value) == Descent(before, G, ucb, parentVisits, me);
      var tile := best.value;
      var outcome := game.Set(tile);
      var result := Score(game.tiles, tile, Some(me));
      if result.None? {
        TicTacToeSearch.UnsettledHasChoices(game.tiles, tile, Some(me));
        VacanciesShrink(G.tiles, tile, Taken(G.next));
        var rest;
        score, rest := Select(game, ucb);
        path := [tile] + rest;
        SelectedPrepend(G, tile, rest, before, scores, game.Model());
      } else {
        ScoreRange(game.tiles, tile, Some(me));
        score := result.value;
        path := [tile];
        SelectedOne(G, tile, before, scores);
      }
    }

    /** select's expansion: play one of the unvisited choices, chosen at
        random; score it, or play the game out from it when that does not
        end the game; record the new board with no wins, no visits and the
        tile played. */
    method Expand(game: TicTacToe, unvisited: seq<Pos>) returns (score: int, path: seq<Pos>)
      requires game.Valid() && Turns(game.Model()) && unvisited != []
      requires forall p :: p in unvisited <==> InGrid(p) && game.tiles[p] == Empty && ChildKey(game.Model(), p) !in scores
      requires Render(game.tiles) in scores
      modifies this, game
      ensures game.Valid() && Selected(old(game.Model()), path, old(scores), scores, game.Model())
      ensures |path| == 1 && path[0] in unvisited
      ensures Reported(game.Model(), path[0], me, score) && -1 <= score <= 1
    {
      ghost var G := game.Model();
      ghost var before := scores;
      assert unvisited[0] in unvisited;
      var tile :| tile in unvisited;
      var outcome := game.Set(tile);
      var result := Score(game.tiles, tile, Some(me));
      if result.None? {
        TicTacToeSearch.UnsettledHasChoices(game.tiles, tile, Some(me));
        score := Playout(game);
        CompletionRange(SetTile(G, tile), me, score);
      } else {
        ScoreRange(game.tiles, tile, Some(me));
        score := result.value;
      }
      scores := scores[Render(game.tiles) := Stats(0, 0, Some(tile))];
      path := [tile];
      SelectedNew(G, tile, before);
    }

    /** One round of play: select from the root, then credit the score to
        every board of the trail back to it. The root is credited at least
        once, and the first move of the trail leads to a board now in the
        table. */
    method Round(game: TicTacToe, ucb: (int, int, int) -> real) returns (first: Pos)
      requires game.Valid() && Turns(game.Model()) && Vacancies(game.tiles) > 0
      requires Render(game.tiles) in scores
      modifies this, game
      ensures game.Valid() && game.Model() == old(game.Model())
      ensures old(scores).Keys <= scores.Keys
      ensures scores[Render(game.tiles)].tile == old(scores)[Render(game.tiles)].tile
      ensures scores[Render(game.tiles)].visits >= old(scores)[Render(game.tiles)].visits + 1
      ensures InGrid(first) && game.tiles[first] == Empty && ChildKey(game.Model(), first) in scores
    {
      ghost var G := game.Model();
      var key := Render(game.tiles);
      var score, path := Select(game, ucb);
      first := path[0];
      PrependLegal(G, path[0], path[1..]);
      assert path == [path[0]] + path[1..];
      RootInTrail(G, path);
      CreditCounts(scores, Trail(G, path), score, key);
      Retrace(game, G, path, score);
    }

    /** MonteCarloSearchAI.play: make the board the root of the table (its
        wins and visits kept, its tile forgotten), run 1000 rounds of select
        and credit, and answer the choice whose board has the most visits,
        the last of equals. The board is left as it was. */
    method Play(game: TicTacToe, ucb: (int, int, int) -> real) returns (tile: Option<Pos>)
      requires game.Valid() && Turns(game.Model()) && Vacancies(game.tiles) > 0
      modifies this, game
      ensures game.Valid() && game.Model() == old(game.Model())
      ensures old(scores).Keys <= scores.Keys
      ensures Render(game.tiles) in scores && scores[Render(game.tiles)].tile.None?
      ensures forall c :: c in Choices(game.tiles) ==> InGrid(c)
      ensures tile == Optimal(scores, game.Model(), Choices(game.tiles), Visits)
      ensures tile.Some? && InGrid(tile.value) && game.tiles[tile.value] == Empty
      ensures ChildKey(game.Model(), tile.value) in scores
      ensures forall c :: InGrid(c) && game.tiles[c] == Empty && ChildKey(game.Model(), c) in scores ==>
        scores[ChildKey(game.Model(), c)].visits <= scores[ChildKey(game.Model(), tile.value)].visits
      ensures Render(game.tiles) !in old(scores) ==> scores[Render(game.tiles)].visits >= 1000
      ensures Render(game.tiles) in old(scores) ==>
        scores[Render(game.tiles)].visits >= old(scores)[Render(game.tiles)].visits + 1000
    {
      ghost var G := game.Model();
      var key := Render(game.tiles);
      var entry := if key in scores then scores[key] else Stats(0, 0, None);
      assert key in old(scores) ==> entry == old(scores)[key];
      scores := scores[key := Stats(entry.wins, entry.visits, None)];
      ghost var seen: Option<Pos> := None;
      var repeat := 1000;
      while repeat > 0
        invariant 0 <= repeat <= 1000
        invariant game.Valid() && game.Model() == G
        invariant old(scores).Keys <= scores.Keys && key in scores && scores[key].tile.None?
        invariant scores[key].visits >= entry.visits + (1000 - repeat)
        invariant repeat < 1000 ==> seen.Some?
        invariant seen.Some? ==> InGrid(seen.value) && G.tiles[seen.value] == Empty && ChildKey(G, seen.value) in scores
      {
        var first := Round(game, ucb);
        seen := Some(first);
        repeat := repeat - 1;
      }
      tile := OptimalTile(game, Visits);
      ChoicesDistinct(G.tiles);
      ChoicesMeans(G.tiles);
      OptimalNone(scores, G, Choices(G.tiles), Visits);
      OptimalIsMaximal(scores, G, Choices(G.tiles), Visits);
      assert Render(game.tiles) == key;
    }
  }
}
