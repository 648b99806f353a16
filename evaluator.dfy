/** The exhaustive game-tree evaluator. For a subject player and an
    objective it scores a board: finished boards by a fixed table, the
    subject's own turns by the best move, the opponent's turns by the
    plain average over every legal reply (deliberately not minimax). */
module Evaluator {
  import opened Board

  /** What the automated player tries to bring about. */
  datatype AiMode = Win | Lose | Tie | NoTie

  /** Value of a finished game with result `w`, for subject `p` under `m`. */
  function TerminalValue(w: GameResult, p: Player, m: AiMode): (r: real)
    ensures r == 0.0 || r == 0.5 || r == 1.0
  {
    if w == FromPlayer(p) then
      if m == AiMode.Win || m == AiMode.NoTie then 1.0 else 0.0
    else if w == GameResult.Tie then
      if m == AiMode.Tie then 1.0
      else if m == AiMode.NoTie then 0.0
      else 0.5
    else
      if m == AiMode.Lose || m == AiMode.NoTie then 1.0 else 0.0
  }

  /** How a finished game went for the subject. */
  datatype Standing = Won | Drawn | Lost

  function StandingOf(w: GameResult, p: Player): Standing
  {
    if w == GameResult.Tie then Drawn
    else if w == FromPlayer(p) then Won
    else Lost
  }

  /** The payoff table, one column per objective. */
  function Payoff(s: Standing, m: AiMode): real
  {
    match m
    case Win => (match s case Won => 1.0 case Drawn => 0.5 case Lost => 0.0)
    case Lose => (match s case Won => 0.0 case Drawn => 0.5 case Lost => 1.0)
    case Tie => (match s case Won => 0.0 case Drawn => 1.0 case Lost => 0.0)
    case NoTie => (match s case Won => 1.0 case Drawn => 0.0 case Lost => 1.0)
  }

  /** The terminal value is the table entry for the subject's standing. */
  lemma TerminalValueIsPayoff(w: GameResult, p: Player, m: AiMode)
    ensures TerminalValue(w, p, m) == Payoff(StandingOf(w, p), m)
  {
  }

  function Sum(xs: seq<real>): real
  {
    if xs == [] then 0.0 else xs[0] + Sum(xs[1..])
  }

  /** Arithmetic mean of a non-empty list. */
  function Mean(xs: seq<real>): (r: real)
    requires |xs| > 0
    ensures r * (|xs| as real) == Sum(xs)
  {
    Sum(xs) / (|xs| as real)
  }

  lemma {:induction false} SumBetween(xs: seq<real>, lo: real, hi: real)
    requires forall i :: 0 <= i < |xs| ==> lo <= xs[i] <= hi
    ensures lo * (|xs| as real) <= Sum(xs) <= hi * (|xs| as real)
  {
    if xs != [] {
      SumBetween(xs[1..], lo, hi);
    }
  }

  /** The mean lies within any bounds on the elements. */
  lemma MeanBetween(xs: seq<real>, lo: real, hi: real)
    requires |xs| > 0
    requires forall i :: 0 <= i < |xs| ==> lo <= xs[i] <= hi
    ensures lo <= Mean(xs) <= hi
  {
    SumBetween(xs, lo, hi);
    var n := |xs| as real;
    assert Mean(xs) * n == Sum(xs);
  }

  /** Index of the maximum that comes LAST: like Iterator::max_by, a later
      element replaces the running maximum unless the maximum is greater. */
  function LastMaxIndex(xs: seq<real>): (k: nat)
    requires |xs| > 0
    ensures k < |xs|
    ensures forall i :: 0 <= i < |xs| ==> xs[i] <= xs[k]
    ensures forall i :: k < i < |xs| ==> xs[i] < xs[k]
  {
    if |xs| == 1 then 0
    else
      var k := LastMaxIndex(xs[..|xs| - 1]);
      if xs[k] > xs[|xs| - 1] then k else |xs| - 1
  }

  /** The scores of a list of (move, score) pairs. */
  function Values(outs: seq<(Pos, real)>): (r: seq<real>)
    ensures |r| == |outs|
    ensures forall i :: 0 <= i < |outs| ==> r[i] == outs[i].1
  {
    seq(|outs|, i requires 0 <= i < |outs| => outs[i].1)
  }

  /** Probability that objective `m` is met for subject `p` from `g`. */
  function WinProbability(g: Game, p: Player, m: AiMode): (r: real)
    ensures 0.0 <= r <= 1.0
    decreases EmptyCount(g), 2
  {
    match Winner(g)
    case Some(w) => TerminalValue(w, p, m)
    case None =>
      FullBoardIsDecided(g);
      if g.turn == p then OptimalMove(g, p, m).1
      else
        var ps := Values(Outcomes(g, p, m, AllPositions));
        MeanBetween(ps, 0.0, 1.0);
        Mean(ps)
  }

  /** The best move for the player to move, with its score; on equal
      scores the move latest in row-major order. Needs an empty cell. */
  function OptimalMove(g: Game, p: Player, m: AiMode): (r: (Pos, real))
    requires EmptyCount(g) > 0
    ensures CanMove(g, r.0)
    ensures 0.0 <= r.1 <= 1.0
    decreases EmptyCount(g), 1
  {
    var outs := Outcomes(g, p, m, AllPositions);
    EmptyCellsAreMoves(g);
    assert outs[0].0 in EmptyCells(g);
    outs[LastMaxIndex(Values(outs))]
  }

  /** Each empty cell among `ps`, in order, paired with the score of the
      board after the player to move takes it. */
  function Outcomes(g: Game, p: Player, m: AiMode, ps: seq<Pos>): (r: seq<(Pos, real)>)
    ensures |r| == |CellsWith(g, None, ps)|
    ensures forall i :: 0 <= i < |r| ==> r[i].0 == CellsWith(g, None, ps)[i] && 0.0 <= r[i].1 <= 1.0
    decreases EmptyCount(g), 0, |ps|
  {
    if ps == [] then []
    else
      EmptyCellsStep(g, ps);
      if CanMove(g, ps[0]) then
        PlaceFillsEmptyCell(g, ps[0]);
        [(ps[0], WinProbability(Place(g, ps[0]), p, m))] + Outcomes(g, p, m, ps[1..])
      else
        Outcomes(g, p, m, ps[1..])
  }

  /** One step of the emptiness filter. */
  lemma EmptyCellsStep(g: Game, ps: seq<Pos>)
    requires ps != []
    ensures CellsWith(g, None, ps) ==
      if CanMove(g, ps[0]) then [ps[0]] + CellsWith(g, None, ps[1..]) else CellsWith(g, None, ps[1..])
  {
  }

  /** One step of the filter-and-map. */
  lemma OutcomesStep(g: Game, p: Player, m: AiMode, ps: seq<Pos>)
    requires ps != []
    ensures Outcomes(g, p, m, ps) ==
      if CanMove(g, ps[0]) then [(ps[0], WinProbability(Place(g, ps[0]), p, m))] + Outcomes(g, p, m, ps[1..])
      else Outcomes(g, p, m, ps[1..])
  {
  }

  /** Every pair's score is the evaluation of the board after that move. */
  lemma {:induction false} OutcomesScore(g: Game, p: Player, m: AiMode, ps: seq<Pos>, i: nat)
    requires i < |Outcomes(g, p, m, ps)|
    ensures Outcomes(g, p, m, ps)[i].1 == WinProbability(Place(g, Outcomes(g, p, m, ps)[i].0), p, m)
  {
    OutcomesStep(g, p, m, ps);
    if CanMove(g, ps[0]) {
      if i > 0 {
        OutcomesScore(g, p, m, ps[1..], i - 1);
      }
    } else {
      OutcomesScore(g, p, m, ps[1..], i);
    }
  }

  /** The score of the board after the player to move takes the empty cell `q`. */
  ghost function MoveValue(g: Game, p: Player, m: AiMode, q: Pos): real
  {
    WinProbability(Place(g, q), p, m)
  }

  /** Where the empty cell `q` sits among the outcomes of the board. */
  lemma OutcomeOf(g: Game, p: Player, m: AiMode, q: Pos) returns (i: nat)
    requires CanMove(g, q)
    ensures i < |Outcomes(g, p, m, AllPositions)| && i < |EmptyCells(g)|
    ensures EmptyCells(g)[i] == q
    ensures Outcomes(g, p, m, AllPositions)[i] == (q, MoveValue(g, p, m, q))
  {
    EmptyCellsAreMoves(g);
    i :| 0 <= i < |EmptyCells(g)| && EmptyCells(g)[i] == q;
    OutcomesScore(g, p, m, AllPositions, i);
  }

  /** In an ascending list, a position with a larger index comes later. */
  lemma AscendingOrder(ps: seq<Pos>, k: nat, i: nat)
    requires Ascending(ps) && k < |ps| && i < |ps|
    requires Index(ps[k]) < Index(ps[i])
    ensures k < i
  {
  }

  /** The pair optimal_move returns is the pair of position LastMaxIndex
      picks among the outcomes. */
  lemma OptimalMoveAt(g: Game, p: Player, m: AiMode) returns (k: nat)
    requires EmptyCount(g) > 0
    ensures k < |Outcomes(g, p, m, AllPositions)| && k < |EmptyCells(g)|
    ensures k == LastMaxIndex(Values(Outcomes(g, p, m, AllPositions)))
    ensures OptimalMove(g, p, m) == Outcomes(g, p, m, AllPositions)[k]
    ensures EmptyCells(g)[k] == OptimalMove(g, p, m).0
  {
    k := LastMaxIndex(Values(Outcomes(g, p, m, AllPositions)));
  }

  /** No empty cell scores above the chosen move, and none after it in
      row-major order scores as much. */
  lemma OptimalMoveBeats(g: Game, p: Player, m: AiMode, q: Pos)
    requires CanMove(g, q)
    ensures EmptyCount(g) > 0
    ensures MoveValue(g, p, m, q) <= OptimalMove(g, p, m).1
    ensures Index(q) > Index(OptimalMove(g, p, m).0) ==> MoveValue(g, p, m, q) < OptimalMove(g, p, m).1
  {
    var i := OutcomeOf(g, p, m, q);
    var k := OptimalMoveAt(g, p, m);
    var vs := Values(Outcomes(g, p, m, AllPositions));
    assert vs[i] == MoveValue(g, p, m, q);
    assert vs[k] == OptimalMove(g, p, m).1;
    if Index(q) > Index(OptimalMove(g, p, m).0) {
      EmptyCellsAreMoves(g);
      AscendingOrder(EmptyCells(g), k, i);
    }
  }

  /** optimal_move returns an empty cell, its score is that of the board
      after the move, no empty cell scores higher, and every empty cell
      later in row-major order scores strictly lower. */
  lemma OptimalMoveIsLastBest(g: Game, p: Player, m: AiMode)
    requires EmptyCount(g) > 0
    ensures CanMove(g, OptimalMove(g, p, m).0)
    ensures OptimalMove(g, p, m).1 == MoveValue(g, p, m, OptimalMove(g, p, m).0)
    ensures forall q: Pos :: CanMove(g, q) ==> MoveValue(g, p, m, q) <= OptimalMove(g, p, m).1
    ensures forall q: Pos :: CanMove(g, q) && Index(q) > Index(OptimalMove(g, p, m).0) ==>
      MoveValue(g, p, m, q) < OptimalMove(g, p, m).1
  {
    var k := OptimalMoveAt(g, p, m);
    OutcomesScore(g, p, m, AllPositions, k);
    forall q: Pos | CanMove(g, q)
      ensures MoveValue(g, p, m, q) <= OptimalMove(g, p, m).1
      ensures Index(q) > Index(OptimalMove(g, p, m).0) ==> MoveValue(g, p, m, q) < OptimalMove(g, p, m).1
    {
      OptimalMoveBeats(g, p, m, q);
    }
  }

  /** On the subject's own turn an undecided board is worth the best move:
      at least every move's score, and equal to some move's score. */
  lemma SubjectTurnMaximises(g: Game, p: Player, m: AiMode)
    requires Winner(g) == None && g.turn == p
    ensures forall q: Pos :: CanMove(g, q) ==> MoveValue(g, p, m, q) <= WinProbability(g, p, m)
    ensures exists q: Pos :: CanMove(g, q) && MoveValue(g, p, m, q) == WinProbability(g, p, m)
  {
    FullBoardIsDecided(g);
    OptimalMoveIsLastBest(g, p, m);
  }

  /** The scores of the opponent's replies, one per empty cell in order. */
  ghost function ReplyValues(g: Game, p: Player, m: AiMode): (r: seq<real>)
  {
    seq(EmptyCount(g), i requires 0 <= i < EmptyCount(g) => MoveValue(g, p, m, EmptyCells(g)[i]))
  }

  /** On the opponent's turn an undecided board is worth the arithmetic mean
      of the scores of all the opponent's legal replies. */
  lemma OpponentTurnAverages(g: Game, p: Player, m: AiMode)
    requires Winner(g) == None && g.turn != p
    ensures EmptyCount(g) > 0
    ensures WinProbability(g, p, m) == Mean(ReplyValues(g, p, m))
  {
    FullBoardIsDecided(g);
    var outs := Outcomes(g, p, m, AllPositions);
    forall i | 0 <= i < |outs| ensures Values(outs)[i] == ReplyValues(g, p, m)[i] {
      OutcomesScore(g, p, m, AllPositions, i);
    }
    assert Values(outs) == ReplyValues(g, p, m);
  }

  /** A finished board is worth its table entry, whatever the search. */
  lemma TerminalMatchesTable(g: Game, p: Player, m: AiMode)
    requires Winner(g).Some?
    ensures WinProbability(g, p, m) == Payoff(StandingOf(Winner(g).value, p), m)
  {
    TerminalValueIsPayoff(Winner(g).value, p, m);
  }

  lemma TerminalValueSwap(w: GameResult, p: Player, m: AiMode)
    ensures TerminalValue(SwapResult(w), Opposite(p), m) == TerminalValue(w, p, m)
  {
    OppositeInvolutive(p);
  }

  /** Relabelling the two players (marks and turn) and evaluating for the
      other player gives the same probability, for every objective. */
  lemma {:induction false} WinProbabilitySymmetric(g: Game, p: Player, m: AiMode)
    ensures WinProbability(Swap(g), Opposite(p), m) == WinProbability(g, p, m)
    decreases EmptyCount(g), 1
  {
    WinnerSwap(g);
    match Winner(g)
    case Some(w) =>
      TerminalValueSwap(w, p, m);
    case None =>
      SwapKeepsEmpty(g, AllPositions);
      OutcomesSymmetric(g, p, m, AllPositions);
      OppositeInvolutive(p);
      assert (Swap(g).turn == Opposite(p)) == (g.turn == p);
  }

  lemma {:induction false} OutcomesSymmetric(g: Game, p: Player, m: AiMode, ps: seq<Pos>)
    ensures Outcomes(Swap(g), Opposite(p), m, ps) == Outcomes(g, p, m, ps)
    decreases EmptyCount(g), 0, |ps|
  {
    if ps != [] {
      OutcomesSymmetric(g, p, m, ps[1..]);
      assert CanMove(Swap(g), ps[0]) == CanMove(g, ps[0]);
      if CanMove(g, ps[0]) {
        PlaceSwap(g, ps[0]);
        PlaceFillsEmptyCell(g, ps[0]);
        WinProbabilitySymmetric(Place(g, ps[0]), p, m);
      }
    }
  }

  /** When the subject, on its turn, can complete a line, the evaluator
      under the Win objective scores the board 1 and optimal_move picks a
      move that keeps that score. */
  lemma ImmediateWinIsTaken(g: Game, p: Player, q: Pos)
    requires Winner(g) == None && g.turn == p && CanMove(g, q)
    requires Winner(Place(g, q)) == Some(FromPlayer(p))
    ensures EmptyCount(g) > 0
    ensures WinProbability(g, p, AiMode.Win) == 1.0
    ensures OptimalMove(g, p, AiMode.Win).1 == 1.0
    ensures MoveValue(g, p, AiMode.Win, OptimalMove(g, p, AiMode.Win).0) == 1.0
  {
    FullBoardIsDecided(g);
    assert MoveValue(g, p, AiMode.Win, q) == 1.0;
    OptimalMoveIsLastBest(g, p, AiMode.Win);
  }
}
