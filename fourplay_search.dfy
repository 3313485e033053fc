/**
  The four-in-a-row AI of fourplay.py (BreadthFirstSearchAI.play; fourplay/ai.py
  carries the same algorithm as `_play`): a depth-first negamax with a
  fail-hard alpha-beta window (selfBest, opntBest), terminal scores divided by
  the depth, and a cut-off at depth 8 that scores an undecided move -1/8.

  `Negamax` is the unpruned depth-limited value, defined on board values; the
  method `Play` is the source's loop over the shuffled frontier, proved to
  restore the board and to agree with `Negamax` inside its window whatever
  order the shuffle picks.
 */
module FourPlaySearch {
  import opened Common
  import opened FourPlayBoard

  /** The depth at which an undecided move stops being searched. */
  const RecursionLimit: nat := 8

  /** The (score, disc) pairs the search passes around; the root window is
      (-2, None) .. (+2, None). */
  datatype Result = Result(score: real, disc: Option<Pos>)

  /** x forced into [lo, hi]: what a fail-hard search can report. */
  function Clamp(x: real, lo: real, hi: real): real {
    if x <= lo then lo else if x >= hi then hi else x
  }

  /** A non-empty window inside the root window. Every call of the source
      has one: the root passes (-2, 2) and a child receives (-hi, -best)
      with best < hi, since the loop stops once best reaches hi. */
  predicate AlphaBeta(lo: real, hi: real) {
    -2.0 <= lo < hi <= 2.0
  }

  // ---------------------------------------------------------------------
  // The unpruned value
  // ---------------------------------------------------------------------

  /** The value for `me` of the position `next` that its disc at c has just
      made, at depth `level`: the decayed score of a finished game, the
      negated value of the opponent's reply below the cut-off, and -1/8 at
      the cut-off. */
  ghost function MoveValue(next: Board, c: Pos, me: Player, opnt: Player, level: nat): real
    requires ValidBoard(next) && c in next.cells && level >= 1
    decreases RecursionLimit - level, 0, 0
  {
    match Verdict(next, c)
    case Some(s) => s as real / level as real
    case None =>
      if level < RecursionLimit then -Negamax(next, opnt, me, level + 1)
      else -1.0 / RecursionLimit as real
  }

  /** The value for `me` of dropping a disc on c at depth `level`: the value
      of the position the drop makes. It is named apart from DropValue, which
      builds that position, so that a proof mentioning the value of a move
      sees the board after the drop only where it asks for it. */
  ghost function ChildValue(b: Board, c: Pos, me: Player, opnt: Player, level: nat): real
    requires ValidBoard(b) && c in b.cells && level >= 1
    decreases RecursionLimit - level, 1, 1
  {
    DropValue(b, c, me, opnt, level)
  }

  ghost function DropValue(b: Board, c: Pos, me: Player, opnt: Player, level: nat): real
    requires ValidBoard(b) && c in b.cells && level >= 1
    decreases RecursionLimit - level, 1, 0
  {
    MoveValue(SetDisc(b, c, me), c, me, opnt, level)
  }

  /** The best value of the first n candidates of cs, or the sentinel -2
      when n is 0: the running maximum the source keeps in selfBestResult,
      starting from (-2, None). */
  ghost function BestOf(b: Board, cs: seq<Pos>, n: nat, me: Player, opnt: Player, level: nat): real
    requires ValidBoard(b) && level >= 1 && n <= |cs| && forall c :: c in cs ==> c in b.cells
    decreases RecursionLimit - level, 2, n
  {
    if n == 0 then -2.0
    else Max(BestOf(b, cs, n - 1, me, opnt, level), ChildValue(b, cs[n - 1], me, opnt, level))
  }

  /** The depth-limited negamax value of the position for `me`. */
  ghost function Negamax(b: Board, me: Player, opnt: Player, level: nat): real
    requires ValidBoard(b) && level >= 1
    decreases RecursionLimit - level, 3, 0
  {
    ChoicesOnBoard(b);
    BestOf(b, ChoicesOf(b.frontier), |ChoicesOf(b.frontier)|, me, opnt, level)
  }

  /** The best of n candidates is at least the value of each of them. */
  lemma {:induction false} BestOfAtLeast(b: Board, cs: seq<Pos>, n: nat, k: nat, me: Player, opnt: Player, level: nat)
    requires ValidBoard(b) && level >= 1 && n <= |cs| && forall c :: c in cs ==> c in b.cells
    requires k < n
    ensures BestOf(b, cs, n, me, opnt, level) >= ChildValue(b, cs[k], me, opnt, level)
    decreases n
  {
    if k < n - 1 {
      BestOfAtLeast(b, cs, n - 1, k, me, opnt, level);
    }
  }

  /** The best of n candidates is the sentinel -2 or the value of one of
      them, and never below -2. */
  lemma {:induction false} BestOfAttained(b: Board, cs: seq<Pos>, n: nat, me: Player, opnt: Player, level: nat)
    returns (k: nat)
    requires ValidBoard(b) && level >= 1 && n <= |cs| && forall c :: c in cs ==> c in b.cells
    ensures BestOf(b, cs, n, me, opnt, level) >= -2.0
    ensures BestOf(b, cs, n, me, opnt, level) == -2.0
            || (k < n && BestOf(b, cs, n, me, opnt, level) == ChildValue(b, cs[k], me, opnt, level))
    decreases n
  {
    if n == 0 {
      k := 0;
    } else {
      var j := BestOfAttained(b, cs, n - 1, me, opnt, level);
      if ChildValue(b, cs[n - 1], me, opnt, level) >= BestOf(b, cs, n - 1, me, opnt, level) {
        k := n - 1;
      } else {
        k := j;
      }
    }
  }

  /** Candidates drawn from ds are worth no more than ds. */
  lemma BestOfBelow(b: Board, cs: seq<Pos>, ds: seq<Pos>, me: Player, opnt: Player, level: nat)
    requires ValidBoard(b) && level >= 1 && forall c :: c in ds ==> c in b.cells
    requires forall c :: c in cs ==> c in ds
    ensures BestOf(b, cs, |cs|, me, opnt, level) <= BestOf(b, ds, |ds|, me, opnt, level)
  {
    var k := BestOfAttained(b, cs, |cs|, me, opnt, level);
    var _ := BestOfAttained(b, ds, |ds|, me, opnt, level);
    if BestOf(b, cs, |cs|, me, opnt, level) != -2.0 {
      assert cs[k] in cs;
      assert cs[k] in ds;
      var j :| 0 <= j < |ds| && ds[j] == cs[k];
      BestOfAtLeast(b, ds, |ds|, j, me, opnt, level);
    }
  }

  /** The order of the candidates does not change their best value, so the
      shuffle in Frontier.choices cannot change the search's value. */
  lemma BestOfOrderFree(b: Board, cs: seq<Pos>, ds: seq<Pos>, me: Player, opnt: Player, level: nat)
    requires ValidBoard(b) && level >= 1 && forall c :: c in cs ==> c in b.cells
    requires forall c :: c in cs <==> c in ds
    ensures BestOf(b, cs, |cs|, me, opnt, level) == BestOf(b, ds, |ds|, me, opnt, level)
  {
    BestOfBelow(b, cs, ds, me, opnt, level);
    BestOfBelow(b, ds, cs, me, opnt, level);
  }

  /** The position is worth at least each of its moves. */
  lemma NegamaxAtLeast(b: Board, c: Pos, me: Player, opnt: Player, level: nat)
    requires ValidBoard(b) && level >= 1 && c in ChoicesOf(b.frontier)
    ensures c in b.cells && Negamax(b, me, opnt, level) >= ChildValue(b, c, me, opnt, level)
  {
    var cs := ChoicesOf(b.frontier);
    ChoicesOnBoard(b);
    var j :| 0 <= j < |cs| && cs[j] == c;
    BestOfAtLeast(b, cs, |cs|, j, me, opnt, level);
  }

  /** One move is worth at most a win at this depth and at least a loss at
      this depth. */
  lemma {:induction false} MoveValueBound(next: Board, c: Pos, me: Player, opnt: Player, level: nat)
    requires ValidBoard(next) && c in next.cells && 1 <= level <= RecursionLimit
    ensures -WinAt(level) <= MoveValue(next, c, me, opnt, level) <= WinAt(level)
    decreases RecursionLimit - level, 0
  {
    Reciprocals(level);
    var v := MoveValue(next, c, me, opnt, level);
    match Verdict(next, c) {
      case Some(s) =>
        Decay(s, level);
      case None =>
        if level < RecursionLimit {
          NegamaxBound(next, opnt, me, level + 1);
          assert v == -Negamax(next, opnt, me, level + 1);
        } else {
          assert v == -1.0 / level as real;
        }
    }
  }

  lemma {:induction false} ChildValueBound(b: Board, c: Pos, me: Player, opnt: Player, level: nat)
    requires ValidBoard(b) && c in b.cells && 1 <= level <= RecursionLimit
    ensures -WinAt(level) <= ChildValue(b, c, me, opnt, level) <= WinAt(level)
    decreases RecursionLimit - level, 1
  {
    assert DropValue(b, c, me, opnt, level) == MoveValue(SetDisc(b, c, me), c, me, opnt, level);
    MoveValueBound(SetDisc(b, c, me), c, me, opnt, level);
  }

  /** With a move available, the value of a position at depth `level` lies in
      [-1/level, 1/level]. */
  lemma {:induction false} NegamaxBound(b: Board, me: Player, opnt: Player, level: nat)
    requires ValidBoard(b) && 1 <= level <= RecursionLimit && ChoicesOf(b.frontier) != []
    ensures -WinAt(level) <= Negamax(b, me, opnt, level) <= WinAt(level)
    decreases RecursionLimit - level, 2
  {
    var cs := ChoicesOf(b.frontier);
    ChoicesOnBoard(b);
    var k := BestOfAttained(b, cs, |cs|, me, opnt, level);
    BestOfAtLeast(b, cs, |cs|, 0, me, opnt, level);
    ChildValueBound(b, cs[0], me, opnt, level);
    if k < |cs| {
      ChildValueBound(b, cs[k], me, opnt, level);
    }
  }

  /** At the root every move, and the position, is worth between -1 and 1. */
  lemma RootMoveBound(b: Board, c: Pos, me: Player, opnt: Player)
    requires ValidBoard(b) && c in b.cells
    ensures -1.0 <= ChildValue(b, c, me, opnt, 1) <= 1.0
  {
    ChildValueBound(b, c, me, opnt, 1);
  }

  lemma RootBound(b: Board, me: Player, opnt: Player)
    requires ValidBoard(b) && ChoicesOf(b.frontier) != []
    ensures -1.0 <= Negamax(b, me, opnt, 1) <= 1.0
  {
    NegamaxBound(b, me, opnt, 1);
  }

  // ---------------------------------------------------------------------
  // Window arithmetic
  // ---------------------------------------------------------------------

  /** The child searches the negated, swapped window. */
  lemma ClampNegate(x: real, lo: real, hi: real)
    requires lo < hi
    ensures Clamp(-x, lo, hi) == -Clamp(x, -hi, -lo)
  {
  }

  /** Two values that clamp alike to a window containing one of them
      strictly inside are equal. */
  lemma ClampInside(x: real, y: real, lo: real, hi: real)
    requires lo < y < hi && Clamp(x, lo, hi) == Clamp(y, lo, hi)
    ensures x == y
  {
  }

  /** One step of the candidate loop: a result v that agrees with the true
      value cv inside (sb, hi) updates the best exactly as the true value
      would, or proves the true value reaches hi. */
  lemma ClampStep(v: real, cv: real, sb: real, hi: real)
    requires sb < hi && Clamp(v, sb, hi) == Clamp(cv, sb, hi)
    ensures v > sb && v < hi ==> v == cv
    ensures v <= sb ==> cv <= sb
    ensures v >= hi ==> cv >= hi
  {
  }

  /** A finished game is scored exactly: its verdict decayed by the depth. */
  lemma TerminalValue(next: Board, c: Pos, me: Player, opnt: Player, level: nat, s: int)
    requires ValidBoard(next) && c in next.cells && level >= 1
    requires Verdict(next, c) == Some(s)
    ensures MoveValue(next, c, me, opnt, level) == s as real / level as real
  {
  }

  /** An undecided move at the cut-off depth is scored -1/8. */
  lemma CutoffValue(next: Board, c: Pos, me: Player, opnt: Player, level: nat)
    requires ValidBoard(next) && c in next.cells && level >= RecursionLimit
    requires Verdict(next, c).None?
    ensures MoveValue(next, c, me, opnt, level) == -1.0 / RecursionLimit as real
  {
  }

  /** An undecided move below the cut-off: a child result r that agrees with
      the opponent's value inside the negated, swapped window (-hi, -lo)
      gives, negated, a value that agrees with the move's value inside
      (lo, hi). */
  lemma ReplyValue(next: Board, c: Pos, me: Player, opnt: Player, level: nat, r: real, lo: real, hi: real)
    requires ValidBoard(next) && c in next.cells && 1 <= level < RecursionLimit
    requires Verdict(next, c).None? && lo < hi
    requires Clamp(r, -hi, -lo) == Clamp(Negamax(next, opnt, me, level + 1), -hi, -lo)
    ensures Clamp(-r, lo, hi) == Clamp(MoveValue(next, c, me, opnt, level), lo, hi)
  {
    var n := Negamax(next, opnt, me, level + 1);
    assert MoveValue(next, c, me, opnt, level) == -n;
    ClampNegate(r, lo, hi);
    ClampNegate(n, lo, hi);
  }

  /** The loop invariant of Play across one candidate: the best so far is
      the clamped maximum of the values seen, and a result that reaches the
      opponent's bound shows the true value of that candidate does too. */
  lemma LoopStep(b: Board, cs: seq<Pos>, i: nat, me: Player, opnt: Player, level: nat,
                 lo: real, hi: real, sb: real, v: real)
    requires ValidBoard(b) && level >= 1 && i < |cs| && forall c :: c in cs ==> c in b.cells
    requires lo <= sb < hi && sb == Max(lo, BestOf(b, cs, i, me, opnt, level))
    requires Clamp(v, sb, hi) == Clamp(ChildValue(b, cs[i], me, opnt, level), sb, hi)
    ensures v > sb && v < hi ==>
      v == ChildValue(b, cs[i], me, opnt, level) && v == Max(lo, BestOf(b, cs, i + 1, me, opnt, level))
    ensures v <= sb ==> sb == Max(lo, BestOf(b, cs, i + 1, me, opnt, level))
    ensures v >= hi ==> ChildValue(b, cs[i], me, opnt, level) >= hi
  {
    ClampStep(v, ChildValue(b, cs[i], me, opnt, level), sb, hi);
  }

  /** Play's loop ran through every candidate without reaching the
      opponent's bound: its best agrees with the negamax value. */
  lemma LoopDone(b: Board, cs: seq<Pos>, me: Player, opnt: Player, level: nat, lo: real, hi: real, sb: real)
    requires ValidBoard(b) && level >= 1 && forall c :: c in cs <==> c in ChoicesOf(b.frontier)
    requires lo <= sb < hi && sb == Max(lo, BestOf(b, cs, |cs|, me, opnt, level))
    ensures Clamp(sb, lo, hi) == Clamp(Negamax(b, me, opnt, level), lo, hi)
  {
    ChoicesOnBoard(b);
    BestOfOrderFree(b, cs, ChoicesOf(b.frontier), me, opnt, level);
  }

  /** Play's loop stopped at candidate c whose value reaches the opponent's
      bound: the reported best, the negamax value and c's value all clamp to
      that bound. */
  lemma LoopCut(b: Board, c: Pos, me: Player, opnt: Player, level: nat, lo: real, hi: real, v: real)
    requires ValidBoard(b) && level >= 1 && c in ChoicesOf(b.frontier)
    requires lo < hi <= v && hi <= ChildValue(b, c, me, opnt, level)
    ensures Clamp(v, lo, hi) == Clamp(Negamax(b, me, opnt, level), lo, hi)
    ensures Clamp(v, lo, hi) == Clamp(ChildValue(b, c, me, opnt, level), lo, hi)
  {
    NegamaxAtLeast(b, c, me, opnt, level);
  }

  // ---------------------------------------------------------------------
  // The search
  // ---------------------------------------------------------------------

  /** The undecided case of BreadthFirstSearchAI.play's loop body, with
      the disc already dropped: below the cut-off the opponent's best reply
      is searched with the negated, swapped window and its score negated;
      at the cut-off the move is scored -1/8. */
  method Reply(board: FourPlay, disc: Pos, me: Player, opnt: Player, sb: Result, opntBest: Result, level: nat)
    returns (value: real)
    requires board.Valid() && OpenAbove(board.Model()) && level >= 1
    requires disc in board.Model().cells && Verdict(board.Model(), disc).None?
    requires AlphaBeta(sb.score, opntBest.score)
    modifies board, board.frontier
    decreases RecursionLimit - level, 0
    ensures board.Valid() && board.Model() == old(board.Model())
    ensures Clamp(value, sb.score, opntBest.score)
            == Clamp(MoveValue(old(board.Model()), disc, me, opnt, level), sb.score, opntBest.score)
  {
    ghost var next := board.Model();
    if level < RecursionLimit {
      var opntResult := Play(board, opnt, me, Result(-opntBest.score, opntBest.disc),
                             Result(-sb.score, sb.disc), level + 1);
      value := -opntResult.score;
      ReplyValue(next, disc, me, opnt, level, opntResult.score, sb.score, opntBest.score);
    } else {
      value := -1.0 / RecursionLimit as real;
      CutoffValue(next, disc, me, opnt, level);
    }
  }

  /** The body of BreadthFirstSearchAI.play's loop for one frontier disc:
      drop it, score it, value it, and lift it again. The value it reports
      agrees with the true value of the move inside the window (sb, hi). */
  method TryDisc(board: FourPlay, disc: Pos, me: Player, opnt: Player, sb: Result, opntBest: Result, level: nat)
    returns (value: real)
    requires board.Valid() && OpenAbove(board.Model()) && level >= 1
    requires disc in ChoicesOf(board.Model().frontier) && AlphaBeta(sb.score, opntBest.score)
    modifies board, board.frontier
    decreases RecursionLimit - level, 1
    ensures board.Valid() && board.Model() == old(board.Model())
    ensures Clamp(value, sb.score, opntBest.score)
            == Clamp(ChildValue(old(board.Model()), disc, me, opnt, level), sb.score, opntBest.score)
  {
    ghost var B := board.Model();
    ChoicesOnBoard(B);
    SetKeepsOpenAbove(B, disc, me);
    board.Set(disc, me);
    ghost var next := board.Model();
    var score := board.ScoreDisc(disc);
    if score.None? {
      value := Reply(board, disc, me, opnt, sb, opntBest, level);
    } else {
      value := score.value as real / level as real;
      TerminalValue(next, disc, me, opnt, level, score.value);
    }
    board.Clear(disc);
    SetThenClear(B, disc, me);
  }

  /** One turn of BreadthFirstSearchAI.play's loop, for the candidate
      choices[i]: try it, keep it when it beats the best so far, and report
      whether the best has reached the opponent's bound. */
  method Consider(board: FourPlay, choices: seq<Pos>, i: nat, me: Player, opnt: Player,
                  selfBest: Result, best: Result, opntBest: Result, level: nat)
    returns (next: Result, cut: bool)
    requires board.Valid() && OpenAbove(board.Model()) && level >= 1
    requires i < |choices| && forall c :: c in choices ==> c in ChoicesOf(board.Model().frontier)
    requires forall c :: c in choices ==> c in board.Model().cells
    requires AlphaBeta(selfBest.score, opntBest.score) && selfBest.score <= best.score < opntBest.score
    requires best.score == Max(selfBest.score, BestOf(board.Model(), choices, i, me, opnt, level))
    modifies board, board.frontier
    decreases RecursionLimit - level, 2
    ensures board.Valid() && board.Model() == old(board.Model())
    ensures next == best || (next.score > best.score && next.disc == Some(choices[i]))
    ensures !cut ==>
      && next.score < opntBest.score
      && next.score == Max(selfBest.score, BestOf(old(board.Model()), choices, i + 1, me, opnt, level))
      && (next != best ==> next.score == ChildValue(old(board.Model()), choices[i], me, opnt, level))
    ensures cut ==>
      && next != best
      && Clamp(next.score, selfBest.score, opntBest.score)
         == Clamp(Negamax(old(board.Model()), me, opnt, level), selfBest.score, opntBest.score)
      && Clamp(next.score, selfBest.score, opntBest.score)
         == Clamp(ChildValue(old(board.Model()), choices[i], me, opnt, level), selfBest.score, opntBest.score)
  {
    ghost var B := board.Model();
    ChoicesOnBoard(B);
    var disc := choices[i];
    var value := TryDisc(board, disc, me, opnt, best, opntBest, level);
    LoopStep(B, choices, i, me, opnt, level, selfBest.score, opntBest.score, best.score, value);
    next := best;
    if value > best.score {
      next := Result(value, Some(disc));
    }
    cut := opntBest.score <= next.score;
    if cut {
      LoopCut(B, disc, me, opnt, level, selfBest.score, opntBest.score, next.score);
    }
  }

  /** BreadthFirstSearchAI.play: try every frontier disc in the shuffled
      order, keep the first strictly better result and stop as soon as it
      reaches the opponent's bound. Whatever order the shuffle picks, the
      result agrees with the negamax value inside the window. */
  method Play(board: FourPlay, me: Player, opnt: Player, selfBest: Result, opntBest: Result, level: nat)
    returns (best: Result)
    requires board.Valid() && OpenAbove(board.Model()) && level >= 1
    requires AlphaBeta(selfBest.score, opntBest.score)
    modifies board, board.frontier
    decreases RecursionLimit - level, 3
    ensures board.Valid() && board.Model() == old(board.Model())
    ensures ChoicesOf(old(board.Model()).frontier) == [] ==> best == selfBest
    ensures best.score >= selfBest.score
    ensures best.score == selfBest.score ==> best == selfBest
    ensures best.score > selfBest.score ==>
      best.disc.Some? && best.disc.value in ChoicesOf(old(board.Model()).frontier)
    ensures Clamp(best.score, selfBest.score, opntBest.score)
            == Clamp(Negamax(old(board.Model()), me, opnt, level), selfBest.score, opntBest.score)
    ensures best.score > selfBest.score ==>
      Clamp(best.score, selfBest.score, opntBest.score)
      == Clamp(ChildValue(old(board.Model()), best.disc.value, me, opnt, level), selfBest.score, opntBest.score)
  {
    ghost var B := board.Model();
    ChoicesOnBoard(B);
    var choices := board.frontier.Choices();
    SameChoices(choices, ChoicesOf(B.frontier));
    best := selfBest;
    var i := 0;
    while i < |choices|
      invariant 0 <= i <= |choices|
      invariant board.Valid() && board.Model() == B
      invariant selfBest.score <= best.score < opntBest.score
      invariant best.score == selfBest.score ==> best == selfBest
      invariant best.score > selfBest.score ==>
        best.disc.Some? && best.disc.value in choices
        && best.score == ChildValue(B, best.disc.value, me, opnt, level)
      invariant best.score == Max(selfBest.score, BestOf(B, choices, i, me, opnt, level))
    {
      var cut;
      best, cut := Consider(board, choices, i, me, opnt, selfBest, best, opntBest, level);
      if cut {
        return;
      }
      i := i + 1;
    }
    LoopDone(B, choices, me, opnt, level, selfBest.score, opntBest.score, best.score);
  }

  /** fourplay/ai.py BreadthFirstSearchAI.play (and the root call of
      fourplay.py's play): search from the root window and report an optimal
      frontier disc with its value, or the sentinel (-2, None) when every
      column is full. */
  method ChooseMove(board: FourPlay, me: Player, opnt: Player) returns (best: Result)
    requires board.Valid() && OpenAbove(board.Model())
    modifies board, board.frontier
    ensures board.Valid() && board.Model() == old(board.Model())
    ensures best.disc.None? <==> ChoicesOf(old(board.Model()).frontier) == []
    ensures best.disc.None? ==> best == Result(-2.0, None)
    ensures best.disc.Some? ==>
      && best.disc.value in ChoicesOf(old(board.Model()).frontier)
      && best.score == Negamax(old(board.Model()), me, opnt, 1)
      && best.score == ChildValue(old(board.Model()), best.disc.value, me, opnt, 1)
      && -1.0 <= best.score <= 1.0
  {
    ghost var B := board.Model();
    best := Play(board, me, opnt, Result(-2.0, None), Result(2.0, None), 1);
    if ChoicesOf(B.frontier) != [] {
      ghost var n := Negamax(B, me, opnt, 1);
      RootBound(B, me, opnt);
      ClampInside(best.score, n, -2.0, 2.0);
      ghost var cv := ChildValue(B, best.disc.value, me, opnt, 1);
      ChoicesOnBoard(B);
      RootMoveBound(B, best.disc.value, me, opnt);
      ClampInside(best.score, cv, -2.0, 2.0);
    }
  }

  /** Dropping a disc that completes four in a row is worth 1 at the root. */
  lemma WinValue(b: Board, c: Pos, me: Player, opnt: Player)
    requires ValidBoard(b) && c in b.cells && FourInARow(SetDisc(b, c, me), c)
    ensures ChildValue(b, c, me, opnt, 1) == 1.0
  {
    assert Verdict(SetDisc(b, c, me), c) == Some(1);
  }

  /** Any other drop is worth less than 1 at the root: a draw is worth 0 and
      the opponent's best reply at depth 2 at least -1/2. */
  lemma NoWinValue(b: Board, c: Pos, me: Player, opnt: Player)
    requires ValidBoard(b) && c in b.cells && !FourInARow(SetDisc(b, c, me), c)
    ensures ChildValue(b, c, me, opnt, 1) < 1.0
  {
    var next := SetDisc(b, c, me);
    var v := MoveValue(next, c, me, opnt, 1);
    if Verdict(next, c).None? {
      NegamaxBound(next, opnt, me, 2);
      assert v == -Negamax(next, opnt, me, 2);
    } else {
      assert v == 0.0;
    }
  }

  /** A move that wins on the spot, when no other move does, is the only
      move the search can report. */
  lemma OnlyWinIsChosen(b: Board, me: Player, opnt: Player, w: Pos)
    requires ValidBoard(b) && w in ChoicesOf(b.frontier)
    requires FourInARow(SetDisc(b, w, me), w)
    requires forall c :: c in ChoicesOf(b.frontier) && c != w ==> !FourInARow(SetDisc(b, c, me), c)
    ensures Negamax(b, me, opnt, 1) == 1.0
    ensures forall c :: c in ChoicesOf(b.frontier) ==>
      (ChildValue(b, c, me, opnt, 1) == Negamax(b, me, opnt, 1) <==> c == w)
  {
    var cs := ChoicesOf(b.frontier);
    ChoicesOnBoard(b);
    NegamaxAtLeast(b, w, me, opnt, 1);
    NegamaxBound(b, me, opnt, 1);
    WinValue(b, w, me, opnt);
    forall c | c in cs && c != w
      ensures ChildValue(b, c, me, opnt, 1) < 1.0
    {
      NoWinValue(b, c, me, opnt);
    }
  }

  // ---------------------------------------------------------------------
  // FourPlay.round
  // ---------------------------------------------------------------------

  /** What a round reports: the human's column was full (the source then
      fails on a missing disc), the game goes on, or it ended with the score
      from the human's side (1 won, 0 drawn, -1 lost). */
  datatype RoundResult = ColumnFull | Pending | Ended(score: int)

  /** The AI's half of FourPlay.round: it searches for an optimal move,
      drops its disc there and scores it; the score is reported from the
      human's side. */
  method Answer(board: FourPlay) returns (result: RoundResult, aiMove: Pos)
    requires board.Valid() && OpenAbove(board.Model()) && ChoicesOf(board.Model().frontier) != []
    modifies board, board.frontier
    ensures board.Valid() && OpenAbove(board.Model())
    ensures aiMove in ChoicesOf(old(board.Model()).frontier)
    ensures ChildValue(old(board.Model()), aiMove, board.ai, board.player, 1)
            == Negamax(old(board.Model()), board.ai, board.player, 1)
    ensures board.Model() == SetDisc(old(board.Model()), aiMove, board.ai)
    ensures result == match Verdict(board.Model(), aiMove)
                      case Some(s) => Ended(-s)
                      case None => Pending
  {
    ghost var B := board.Model();
    var answer := ChooseMove(board, board.ai, board.player);
    aiMove := answer.disc.value;
    ChoicesOnBoard(B);
    SetKeepsOpenAbove(B, aiMove, board.ai);
    board.Set(aiMove, board.ai);
    var aiScore := board.ScoreDisc(aiMove);
    if aiScore.Some? {
      result := Ended(-aiScore.value);
    } else {
      result := Pending;
    }
  }

  /** FourPlay.round: the human drops a disc in `column`; unless that ends
      the game, the AI answers with an optimal move. `aiMove` is the disc the
      AI dropped, which the source reports only through its display. */
  method Round(board: FourPlay, column: int) returns (result: RoundResult, aiMove: Option<Pos>)
    requires board.Valid() && OpenAbove(board.Model()) && 0 <= column < board.columns
    modifies board, board.frontier
    ensures board.Valid() && OpenAbove(board.Model())
    ensures old(board.Model()).frontier[column].None? ==>
      result == ColumnFull && aiMove == None && board.Model() == old(board.Model())
    ensures old(board.Model()).frontier[column].Some? ==>
      var mine := Pos(old(board.Model()).frontier[column].value, column);
      var afterMine := SetDisc(old(board.Model()), mine, board.player);
      if Verdict(afterMine, mine).Some? then
        result == Ended(Verdict(afterMine, mine).value) && aiMove == None && board.Model() == afterMine
      else
        && aiMove.Some? && aiMove.value in ChoicesOf(afterMine.frontier)
        && ChildValue(afterMine, aiMove.value, board.ai, board.player, 1) == Negamax(afterMine, board.ai, board.player, 1)
        && board.Model() == SetDisc(afterMine, aiMove.value, board.ai)
        && result == match Verdict(board.Model(), aiMove.value)
                     case Some(s) => Ended(-s)
                     case None => Pending
  {
    ghost var B := board.Model();
    var entry := board.frontier.entries[column];
    if entry.None? {
      return ColumnFull, None;
    }
    var mine := Pos(entry.value, column);
    assert mine in ChoicesOf(B.frontier);
    SetKeepsOpenAbove(B, mine, board.player);
    board.Set(mine, board.player);
    var playerScore := board.ScoreDisc(mine);
    if playerScore.Some? {
      return Ended(playerScore.value), None;
    }
    var disc;
    result, disc := Answer(board);
    aiMove := Some(disc);
  }

  // ---------------------------------------------------------------------
  // The `Finish` test position
  // ---------------------------------------------------------------------

  /** The `Finish` scenario (fourplay/ai.py:43-49): 'X' marks the AI's discs,
      'O' its opponent's, and '#' the disc the search must find. */
  const Finish: seq<string> := ["XXXOXX#", "OOOXOOO", "XXXOXXX", "OOOXOOO", "XXXOXXX", "OOOXOOO"]

  /** b is what `build` makes of a scenario: each disc holds the player whose
      symbol it shows, or nobody, and the frontier is reset. */
  ghost predicate BuiltFrom(b: Board, scenario: seq<string>, o: Player, x: Player) {
    && b.rows == |scenario|
    && (forall r :: 0 <= r < |scenario| ==> |scenario[r]| == b.columns)
    && GridKeys(b.rows, b.columns, b.cells) && FrontierReset(b)
    && forall p :: p in b.cells ==> b.cells[p] == Decode(o, x, scenario[p.row][p.column])
  }

  /** In `Finish` every column but the last is full; the last is open at
      row 0 only: that disc is the one choice. */
  lemma FinishHasOneChoice(b: Board)
    requires BuiltFrom(b, Finish, Player('O'), Player('X'))
    ensures ChoicesOf(b.frontier) == [Pos(0, 6)]
  {
    var f := b.frontier;
    assert b.rows == 6 && b.columns == |Finish[0]| == 7;
    forall c | 0 <= c < 6
      ensures f[c] == None
    {
      assert Pos(0, c) in b.cells;
      assert Finish[0][c] == 'X' || Finish[0][c] == 'O';
      EmptyRunUnique(6, 7, b.cells, c, 0);
    }
    assert Pos(0, 6) in b.cells && Pos(1, 6) in b.cells;
    assert Finish[0][6] == '#' && Finish[1][6] == 'O';
    EmptyRunUnique(6, 7, b.cells, 6, 1);
    assert f[6] == Some(0);
    assert ChoicesFrom(f, 6) == [Pos(0, 6)];
    assert ChoicesFrom(f, 5) == ChoicesFrom(f, 6);
    assert ChoicesFrom(f, 4) == ChoicesFrom(f, 5);
    assert ChoicesFrom(f, 3) == ChoicesFrom(f, 4);
    assert ChoicesFrom(f, 2) == ChoicesFrom(f, 3);
    assert ChoicesFrom(f, 1) == ChoicesFrom(f, 2);
    assert ChoicesFrom(f, 0) == ChoicesFrom(f, 1);
  }

  /** The `Finish` test (fourplay/ai.py:87-95): on that board the search
      drops its disc on the one open disc, (0, 6). */
  method PlayFinish(board: FourPlay, me: Player, opnt: Player) returns (disc: Option<Pos>)
    requires board.Valid() && BuiltFrom(board.Model(), Finish, Player('O'), Player('X'))
    modifies board, board.frontier
    ensures disc == Some(Pos(0, 6))
  {
    ResetIsOpenAbove(board.Model());
    FinishHasOneChoice(board.Model());
    var best := ChooseMove(board, me, opnt);
    disc := best.disc;
  }
}
