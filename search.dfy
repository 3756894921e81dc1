/**
 * What each computer policy chooses, stated on board values: the greedy
 * policy's first completing cell, the minimax score with its depth-weighted
 * terminal values, and the hard policy's first best-scoring cell.
 */
module Search {
  import opened TicTacToe

  /**
   * Stand-ins for the unbounded seeds -inf and +inf of the search: every
   * score of a call the game makes (depth plus blank cells at most 10) lies
   * in [-10, 10]; see MinimaxBounds.
   */
  const NegInf: int := -11
  const PosInf: int := 11

  function Max(x: int, y: int): int { if x < y then y else x }
  function Min(x: int, y: int): int { if x < y then x else y }

  // ---------------------------------------------------------------- greedy

  /** Marking cell p with m gives m a full line. */
  predicate Completes(b: Board, p: Pos, m: Cell) {
    Wins(Place(b, p, m), m)
  }

  /** The first of the candidate cells whose marking completes a line of m, if any. */
  function FirstCompleting(b: Board, moves: seq<Pos>, m: Cell): (r: Option<Pos>)
    ensures r.Some? ==> r.value in moves && Completes(b, r.value, m)
  {
    if moves == [] then None
    else if Completes(b, moves[0], m) then Some(moves[0])
    else FirstCompleting(b, moves[1..], m)
  }

  /**
   * FirstCompleting picks the earliest completing candidate, and finds
   * nothing exactly when no candidate completes a line.
   */
  lemma {:induction false} FirstCompletingIsFirst(b: Board, moves: seq<Pos>, m: Cell)
    ensures FirstCompleting(b, moves, m).None? <==>
              forall j | 0 <= j < |moves| :: !Completes(b, moves[j], m)
    ensures FirstCompleting(b, moves, m).Some? ==>
              exists k | 0 <= k < |moves| ::
                moves[k] == FirstCompleting(b, moves, m).value && Completes(b, moves[k], m) &&
                forall j | 0 <= j < k :: !Completes(b, moves[j], m)
  {
    if moves != [] && !Completes(b, moves[0], m) {
      var tail := moves[1..];
      FirstCompletingIsFirst(b, tail, m);
      assert forall j | 1 <= j < |moves| :: moves[j] == tail[j - 1];
      if FirstCompleting(b, tail, m).Some? {
        var k :| 0 <= k < |tail| && tail[k] == FirstCompleting(b, tail, m).value &&
                 Completes(b, tail[k], m) && forall j | 0 <= j < k :: !Completes(b, tail[j], m);
        assert moves[k + 1] == tail[k];
      }
    }
  }

  /**
   * The cell the greedy policy commits without falling back to a random
   * cell: the first blank cell that wins for O, else the first blank cell
   * that would win for X; None when it falls back.
   */
  function MediumChoice(b: Board): (r: Option<Pos>)
    ensures r.Some? ==> At(b, r.value) == Empty
    ensures r.Some? ==> Completes(b, r.value, O) || Completes(b, r.value, X)
  {
    EmptyPositionsMembers(b);
    var moves := EmptyPositions(b);
    match FirstCompleting(b, moves, O)
    case Some(p) => Some(p)
    case None => FirstCompleting(b, moves, X)
  }

  /** The greedy policy's order of preference, stated over the blank cells in row-major order. */
  lemma MediumChoicePriority(b: Board)
    ensures var moves := EmptyPositions(b);
            (exists j | 0 <= j < |moves| :: Completes(b, moves[j], O)) ==>
              MediumChoice(b) == FirstCompleting(b, moves, O)
    ensures var moves := EmptyPositions(b);
            (forall j | 0 <= j < |moves| :: !Completes(b, moves[j], O)) ==>
              MediumChoice(b) == FirstCompleting(b, moves, X)
    ensures var moves := EmptyPositions(b);
            MediumChoice(b).None? <==>
              forall j | 0 <= j < |moves| :: !Completes(b, moves[j], O) && !Completes(b, moves[j], X)
  {
    var moves := EmptyPositions(b);
    FirstCompletingIsFirst(b, moves, O);
    FirstCompletingIsFirst(b, moves, X);
  }

  // ---------------------------------------------------------------- minimax

  /** The mark the player to move puts down: O maximises, X minimises. */
  function Mover(maximizing: bool): Cell {
    if maximizing then O else X
  }

  /**
   * The minimax value of a board at a search depth: 10 - depth when O holds
   * a line (checked first), depth - 10 when X does, 0 on a full board, and
   * otherwise the best value over the mover's placements.
   */
  function Minimax(b: Board, depth: nat, maximizing: bool): int
    decreases Empties(b), 2, 0
  {
    if Wins(b, O) then 10 - depth
    else if Wins(b, X) then depth - 10
    else if IsDraw(b) then 0
    else Fold(b, EmptyPositions(b), depth, maximizing, if maximizing then NegInf else PosInf)
  }

  /** The value of the reply that puts the mover's mark on blank cell p. */
  function ChildScore(b: Board, p: Pos, depth: nat, maximizing: bool): int
    requires At(b, p) == Empty
    decreases Empties(b), 0, 0
  {
    PlaceOnEmpty(b, p, Mover(maximizing));
    Minimax(Place(b, p, Mover(maximizing)), depth + 1, !maximizing)
  }

  /** The running maximum (or minimum) of the child values, taken over the moves from left to right. */
  function Fold(b: Board, moves: seq<Pos>, depth: nat, maximizing: bool, acc: int): int
    requires forall i | 0 <= i < |moves| :: At(b, moves[i]) == Empty
    decreases Empties(b), 1, |moves|
  {
    if moves == [] then acc
    else
      var s := ChildScore(b, moves[0], depth, maximizing);
      Fold(b, moves[1..], depth, maximizing, if maximizing then Max(acc, s) else Min(acc, s))
  }

  /** The fold is the extremum of its seed and the child values, and is one of them. */
  lemma {:induction false} FoldExtremum(b: Board, moves: seq<Pos>, depth: nat, maximizing: bool, acc: int)
    requires forall i | 0 <= i < |moves| :: At(b, moves[i]) == Empty
    ensures var r := Fold(b, moves, depth, maximizing, acc);
            maximizing ==> r >= acc && forall j | 0 <= j < |moves| :: ChildScore(b, moves[j], depth, maximizing) <= r
    ensures var r := Fold(b, moves, depth, maximizing, acc);
            !maximizing ==> r <= acc && forall j | 0 <= j < |moves| :: ChildScore(b, moves[j], depth, maximizing) >= r
    ensures var r := Fold(b, moves, depth, maximizing, acc);
            r == acc || exists j | 0 <= j < |moves| :: r == ChildScore(b, moves[j], depth, maximizing)
    decreases |moves|
  {
    if moves != [] {
      var s := ChildScore(b, moves[0], depth, maximizing);
      var tail := moves[1..];
      var acc' := if maximizing then Max(acc, s) else Min(acc, s);
      FoldExtremum(b, tail, depth, maximizing, acc');
      assert forall j | 1 <= j < |moves| :: moves[j] == tail[j - 1];
      var r := Fold(b, moves, depth, maximizing, acc);
      if r != acc && r != s {
        var j :| 0 <= j < |tail| && r == ChildScore(b, tail[j], depth, maximizing);
        assert moves[j + 1] == tail[j];
      }
    }
  }

  /**
   * Every value lies between depth - 10 and 10 - depth when the depth plus
   * the number of blank cells is at most 10, as in every call the search
   * makes; in particular no value ever reaches the seeds NegInf and PosInf.
   */
  lemma {:induction false} MinimaxBounds(b: Board, depth: nat, maximizing: bool)
    requires depth + Empties(b) <= 10
    ensures depth - 10 <= Minimax(b, depth, maximizing) <= 10 - depth
    decreases Empties(b), 1
  {
    if !Wins(b, O) && !Wins(b, X) && !IsDraw(b) {
      var moves := EmptyPositions(b);
      EmptyPositionsNoneIffFull(b);
      forall j | 0 <= j < |moves|
        ensures depth + 1 - 10 <= ChildScore(b, moves[j], depth, maximizing) <= 10 - depth - 1
      {
        ChildBounds(b, moves[j], depth, maximizing);
      }
      FoldExtremum(b, moves, depth, maximizing, if maximizing then NegInf else PosInf);
      assert moves[0] in moves;
    }
  }

  lemma {:induction false} ChildBounds(b: Board, p: Pos, depth: nat, maximizing: bool)
    requires At(b, p) == Empty
    requires depth + Empties(b) <= 10
    ensures depth + 1 - 10 <= ChildScore(b, p, depth, maximizing) <= 10 - depth - 1
    decreases Empties(b), 0
  {
    ChildRoom(b, p, Mover(maximizing), depth);
    MinimaxBounds(Place(b, p, Mover(maximizing)), depth + 1, !maximizing);
  }

  /** Marking a blank cell keeps the depth plus the blank count within bounds one level deeper. */
  lemma ChildRoom(b: Board, p: Pos, m: Cell, depth: nat)
    requires At(b, p) == Empty && m != Empty
    requires depth + Empties(b) <= 10
    ensures Empties(Place(b, p, m)) < Empties(b)
    ensures depth + 1 + Empties(Place(b, p, m)) <= 10
  {
    PlaceOnEmpty(b, p, m);
  }

  /**
   * Off a terminal position, the maximiser's value is the largest value of
   * its O placements and the minimiser's the smallest of its X placements.
   */
  lemma MinimaxNonTerminal(b: Board, depth: nat, maximizing: bool)
    requires !Wins(b, O) && !Wins(b, X) && !IsDraw(b)
    requires depth + Empties(b) <= 10
    ensures var moves := EmptyPositions(b);
            var r := Minimax(b, depth, maximizing);
            && (exists j | 0 <= j < |moves| :: r == ChildScore(b, moves[j], depth, maximizing))
            && (maximizing ==> forall j | 0 <= j < |moves| :: ChildScore(b, moves[j], depth, maximizing) <= r)
            && (!maximizing ==> forall j | 0 <= j < |moves| :: ChildScore(b, moves[j], depth, maximizing) >= r)
  {
    var moves := EmptyPositions(b);
    FoldExtremum(b, moves, depth, maximizing, if maximizing then NegInf else PosInf);
    MinimaxBounds(b, depth, maximizing);
  }

  // ---------------------------------------------------------------- hard

  /** The root value of putting O on cell p: the opponent then minimises, at depth 0. */
  function RootScore(b: Board, p: Pos): int {
    Minimax(Place(b, p, O), 0, false)
  }

  /** The root values of the candidate moves, in order. */
  function RootScores(b: Board, moves: seq<Pos>): (scores: seq<int>)
    ensures |scores| == |moves|
    ensures forall j | 0 <= j < |moves| :: scores[j] == RootScore(b, moves[j])
  {
    seq(|moves|, j requires 0 <= j < |moves| => RootScore(b, moves[j]))
  }

  /**
   * The root scan over the moves and their scores: a move replaces the best
   * so far only when its score is strictly greater.
   */
  function BestFrom(moves: seq<Pos>, scores: seq<int>, bestScore: int, best: Option<Pos>): Option<Pos>
    requires |scores| == |moves|
    decreases |moves|
  {
    if moves == [] then best
    else if scores[0] > bestScore then BestFrom(moves[1..], scores[1..], scores[0], Some(moves[0]))
    else BestFrom(moves[1..], scores[1..], bestScore, best)
  }

  /** The cell the hard policy marks, or None on a full board. */
  function HardChoice(b: Board): Option<Pos> {
    var moves := EmptyPositions(b);
    BestFrom(moves, RootScores(b, moves), NegInf, None)
  }

  /**
   * The scan keeps what it had when no score beats the running score, and
   * otherwise ends on the first move of maximal score.
   */
  lemma {:induction false} BestFromFirstMax(moves: seq<Pos>, scores: seq<int>, bestScore: int, best: Option<Pos>)
    requires |scores| == |moves|
    ensures (forall j | 0 <= j < |scores| :: scores[j] <= bestScore) ==>
              BestFrom(moves, scores, bestScore, best) == best
    ensures (exists j | 0 <= j < |scores| :: scores[j] > bestScore) ==>
              exists k | 0 <= k < |scores| ::
                && BestFrom(moves, scores, bestScore, best) == Some(moves[k])
                && scores[k] > bestScore
                && (forall j | 0 <= j < |scores| :: scores[j] <= scores[k])
                && (forall j | 0 <= j < k :: scores[j] < scores[k])
    decreases |moves|
  {
    if moves != [] {
      var tail, rest := moves[1..], scores[1..];
      assert forall j | 1 <= j < |scores| :: scores[j] == rest[j - 1];
      var bs := if scores[0] > bestScore then scores[0] else bestScore;
      var bm := if scores[0] > bestScore then Some(moves[0]) else best;
      BestFromFirstMax(tail, rest, bs, bm);
      if exists j | 0 <= j < |rest| :: rest[j] > bs {
        var k :| 0 <= k < |rest| && BestFrom(tail, rest, bs, bm) == Some(tail[k])
                 && rest[k] > bs
                 && (forall j | 0 <= j < |rest| :: rest[j] <= rest[k])
                 && (forall j | 0 <= j < k :: rest[j] < rest[k]);
        assert moves[k + 1] == tail[k];
      } else if scores[0] > bestScore {
        assert BestFrom(moves, scores, bestScore, best) == Some(moves[0]);
      }
    }
  }

  /** Every root score lies in [-10, 10]. */
  lemma RootScoreBounds(b: Board, p: Pos)
    requires At(b, p) == Empty
    ensures -10 <= RootScore(b, p) <= 10
  {
    EmptiesAtMostNine(b);
    ChildRoom(b, p, O, 0);
    MinimaxBounds(Place(b, p, O), 0, false);
  }

  /**
   * On a board with a blank cell the hard policy picks a blank cell whose
   * score is maximal, and the first such cell in row-major order.
   */
  lemma HardChoiceIsFirstBest(b: Board)
    requires !IsDraw(b)
    ensures HardChoice(b).Some?
    ensures var moves := EmptyPositions(b);
            exists k | 0 <= k < |moves| ::
              && HardChoice(b) == Some(moves[k])
              && (forall j | 0 <= j < |moves| :: RootScore(b, moves[j]) <= RootScore(b, moves[k]))
              && (forall j | 0 <= j < k :: RootScore(b, moves[j]) < RootScore(b, moves[k]))
  {
    var moves := EmptyPositions(b);
    EmptyPositionsNoneIffFull(b);
    var scores := RootScores(b, moves);
    RootScoreBounds(b, moves[0]);
    assert scores[0] > NegInf;
    BestFromFirstMax(moves, scores, NegInf, None);
    var k :| 0 <= k < |scores|
             && BestFrom(moves, scores, NegInf, None) == Some(moves[k])
             && scores[k] > NegInf
             && (forall j | 0 <= j < |scores| :: scores[j] <= scores[k])
             && (forall j | 0 <= j < k :: scores[j] < scores[k]);
    assert HardChoice(b) == Some(moves[k]);
  }

  /** A cell that wins at once scores 10 and every other blank cell scores less. */
  lemma RootScoreTen(b: Board, p: Pos)
    requires At(b, p) == Empty
    ensures RootScore(b, p) == 10 <==> Completes(b, p, O)
    ensures !Completes(b, p, O) ==> RootScore(b, p) < 10
  {
    RootScoreBounds(b, p);
    var c := Place(b, p, O);
    EmptiesAtMostNine(b);
    ChildRoom(b, p, O, 0);
    if !Wins(c, O) && !Wins(c, X) && !IsDraw(c) {
      MinimaxNonTerminal(c, 0, false);
      var moves := EmptyPositions(c);
      var j :| 0 <= j < |moves| && Minimax(c, 0, false) == ChildScore(c, moves[j], 0, false);
      ChildBounds(c, moves[j], 0, false);
    }
  }

  /** When some blank cell wins at once, the hard policy takes the first such cell. */
  lemma HardTakesImmediateWin(b: Board)
    requires exists p | p in EmptyPositions(b) :: Completes(b, p, O)
    ensures HardChoice(b) == FirstCompleting(b, EmptyPositions(b), O)
  {
    var moves := EmptyPositions(b);
    EmptyPositionsNoneIffFull(b);
    var p :| p in moves && Completes(b, p, O);
    assert !IsDraw(b);
    HardChoiceIsFirstBest(b);
    var k :| 0 <= k < |moves| && HardChoice(b) == Some(moves[k])
             && (forall j | 0 <= j < |moves| :: RootScore(b, moves[j]) <= RootScore(b, moves[k]))
             && (forall j | 0 <= j < k :: RootScore(b, moves[j]) < RootScore(b, moves[k]));
    forall j | 0 <= j < |moves| ensures RootScore(b, moves[j]) == 10 <==> Completes(b, moves[j], O) {
      RootScoreTen(b, moves[j]);
    }
    RootScoreBounds(b, moves[k]);
    var i :| 0 <= i < |moves| && moves[i] == p;
    assert RootScore(b, moves[k]) == 10;
    FirstCompletingIsFirst(b, moves, O);
    var k0 :| 0 <= k0 < |moves| && moves[k0] == FirstCompleting(b, moves, O).value &&
              Completes(b, moves[k0], O) && forall j | 0 <= j < k0 :: !Completes(b, moves[j], O);
    assert k == k0;
  }
}
