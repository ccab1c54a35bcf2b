/** The outer loop of the optimiser, over any kind of state and any round.
    A round either adopts a state and its score or reports that it found
    nothing better. The loop repeats rounds while the best score is positive,
    stops at the first round that finds nothing, and aborts if a round ever
    adopts a worse score. `fuel` bounds the number of rounds. */
module Descent {
  import opened Results

  datatype Stop = ReachedZero | LocalOptimum | OutOfRounds

  /** Where the search ended; `trail` lists the best score after each round,
      starting with the score of the state the search started from. */
  datatype Outcome<T> = Outcome(recipe: T, score: real, trail: seq<real>, stop: Stop)

  /** One round: the adopted state and its score, or None when nothing is better. */
  type Round<!T> = (T, real) -> Result<Option<(T, real)>>

  function Climb<T>(round: Round<T>, best: T, bestScore: real, fuel: nat): Result<Outcome<T>>
    decreases fuel
  {
    if bestScore <= 0.0 then Success(Outcome(best, bestScore, [bestScore], ReachedZero))
    else if fuel == 0 then Success(Outcome(best, bestScore, [bestScore], OutOfRounds))
    else
      var adopted :- round(best, bestScore);
      match adopted
      case None => Success(Outcome(best, bestScore, [bestScore], LocalOptimum))
      case Some((next, nextScore)) =>
        if nextScore > bestScore then Failure(ScoreIncreased)
        else
          var rest :- Climb(round, next, nextScore, fuel - 1);
          Success(rest.(trail := [bestScore] + rest.trail))
  }

  ghost predicate StrictlyDecreasing(s: seq<real>)
  {
    forall i, j :: 0 <= i < j < |s| ==> s[j] < s[i]
  }

  /** `to` is reached from `from` by `steps` moves, each to one of `moves(from)`. */
  ghost predicate Reaches<T>(moves: T -> seq<T>, from: T, to: T, steps: nat)
    decreases steps
  {
    if steps == 0 then from == to
    else exists n :: n in moves(from) && Reaches(moves, n, to, steps - 1)
  }

  /** What a round that improves strictly along `moves` delivers from `b`: it
      never aborts, reports nothing only when no move scores below `b`, and
      otherwise adopts a move of strictly lower score together with that score. */
  ghost predicate RoundOk<T>(moves: T -> seq<T>, score: T -> real, b: T, result: Result<Option<(T, real)>>)
  {
    && result.Success?
    && (result.value.None? ==> forall n :: n in moves(b) ==> score(n) >= score(b))
    && (result.value.Some? ==>
          && result.value.value.0 in moves(b)
          && result.value.value.1 == score(result.value.value.0)
          && result.value.value.1 < score(b))
  }

  /** `RoundOk` for a state whose moves are listed as `nbrs`. */
  lemma RoundOkFrom<T>(moves: T -> seq<T>, score: T -> real, b: T, result: Result<Option<(T, real)>>, nbrs: seq<T>)
    requires moves(b) == nbrs && result.Success?
    requires result.value.None? ==> forall n :: n in nbrs ==> score(n) >= score(b)
    requires result.value.Some? ==>
      result.value.value.0 in nbrs && result.value.value.1 == score(result.value.value.0) && result.value.value.1 < score(b)
    ensures RoundOk(moves, score, b, result)
  {
  }

  /** The round behaves as `RoundOk` from every state satisfying `inv`. */
  ghost predicate Improving<T(!new)>(moves: T -> seq<T>, score: T -> real, round: Round<T>, inv: T -> bool)
  {
    forall b :: inv(b) ==> RoundOk(moves, score, b, round(b, score(b)))
  }

  /** Every move from a state satisfying `inv` satisfies it too. */
  ghost predicate Closed<T(!new)>(moves: T -> seq<T>, inv: T -> bool)
  {
    forall b, n :: inv(b) && n in moves(b) ==> inv(n)
  }

  /** What the loop promises about an outcome reached from a start scoring
      `bestScore` with `fuel` rounds: a strictly falling trail of scores from
      `bestScore` to the final score, one per round run; a final state reached
      by that many moves, with the final score; and each way of stopping
      meaning what its name says. */
  ghost predicate Guarantees<T>(moves: T -> seq<T>, score: T -> real, best: T, bestScore: real, fuel: nat, o: Outcome<T>)
  {
    && 1 <= |o.trail| <= fuel + 1 && o.trail[0] == bestScore && o.trail[|o.trail| - 1] == o.score
    && Reaches(moves, best, o.recipe, |o.trail| - 1) && o.score == score(o.recipe)
    && StrictlyDecreasing(o.trail)
    && (o.stop == ReachedZero <==> o.score <= 0.0)
    && (o.stop == LocalOptimum ==> forall n :: n in moves(o.recipe) ==> score(n) >= o.score)
    && (o.stop == OutOfRounds ==> |o.trail| == fuel + 1)
  }

  // ---------------------------------------------------------------------------
  // The loop, case by case

  /** Without a positive score or rounds left, the loop stops where it is. */
  lemma ClimbStops<T>(moves: T -> seq<T>, score: T -> real, round: Round<T>, best: T, bestScore: real, fuel: nat)
    requires bestScore == score(best)
    requires bestScore <= 0.0 || fuel == 0
    ensures Climb(round, best, bestScore, fuel)
      == Success(Outcome(best, bestScore, [bestScore], if bestScore <= 0.0 then ReachedZero else OutOfRounds))
    ensures Guarantees(moves, score, best, bestScore, fuel, Climb(round, best, bestScore, fuel).value)
  {
  }

  /** A round that finds nothing better ends the loop at a local optimum. */
  lemma ClimbAtOptimum<T>(moves: T -> seq<T>, score: T -> real, round: Round<T>, best: T, bestScore: real, fuel: nat)
    requires bestScore == score(best) && bestScore > 0.0 && fuel > 0
    requires round(best, bestScore) == Success(None)
    requires forall n :: n in moves(best) ==> score(n) >= bestScore
    ensures Climb(round, best, bestScore, fuel) == Success(Outcome(best, bestScore, [bestScore], LocalOptimum))
    ensures Guarantees(moves, score, best, bestScore, fuel, Climb(round, best, bestScore, fuel).value)
  {
  }

  /** A round that adopts `next` continues the loop from it. */
  lemma ClimbStep<T>(round: Round<T>, best: T, bestScore: real, fuel: nat, k: nat, next: T, nextScore: real)
    requires bestScore > 0.0 && fuel == k + 1
    requires round(best, bestScore) == Success(Some((next, nextScore)))
    requires nextScore <= bestScore
    requires Climb(round, next, nextScore, k).Success?
    ensures Climb(round, best, bestScore, fuel)
      == Success(Climb(round, next, nextScore, k).value.(trail := [bestScore] + Climb(round, next, nextScore, k).value.trail))
  {
  }

  /** A round that adopts a strictly better move continues the loop from it,
      and the guarantees of the rest of the loop carry over. */
  lemma ClimbAdopts<T>(moves: T -> seq<T>, score: T -> real, round: Round<T>, best: T, bestScore: real, fuel: nat, k: nat, next: T, nextScore: real)
    requires bestScore > 0.0 && fuel == k + 1
    requires round(best, bestScore) == Success(Some((next, nextScore)))
    requires next in moves(best) && nextScore < bestScore
    requires Climb(round, next, nextScore, k).Success?
    requires Guarantees(moves, score, next, nextScore, k, Climb(round, next, nextScore, k).value)
    ensures Climb(round, best, bestScore, fuel).Success?
    ensures Guarantees(moves, score, best, bestScore, fuel, Climb(round, best, bestScore, fuel).value)
  {
    ClimbStep(round, best, bestScore, fuel, k, next, nextScore);
    var rest := Climb(round, next, nextScore, k).value;
    GuaranteesPrepend(moves, score, best, bestScore, next, nextScore, k, rest);
  }

  /** One more improving round keeps the guarantees. */
  lemma GuaranteesPrepend<T>(moves: T -> seq<T>, score: T -> real, best: T, bestScore: real, next: T, nextScore: real, k: nat, rest: Outcome<T>)
    requires Guarantees(moves, score, next, nextScore, k, rest)
    requires next in moves(best) && nextScore < bestScore
    ensures Guarantees(moves, score, best, bestScore, k + 1, rest.(trail := [bestScore] + rest.trail))
  {
    var trail := [bestScore] + rest.trail;
    TrailPrepend(bestScore, rest.trail);
    ReachesByStep(moves, best, next, rest.recipe, |rest.trail| - 1, |trail| - 1);
  }

  lemma TrailPrepend(first: real, trail: seq<real>)
    requires |trail| > 0 && trail[0] < first && StrictlyDecreasing(trail)
    ensures var t := [first] + trail;
      |t| == |trail| + 1 && t[0] == first && t[|t| - 1] == trail[|trail| - 1] && StrictlyDecreasing(t)
  {
    var t := [first] + trail;
    forall i, j | 0 <= i < j < |t| ensures t[j] < t[i] {
      if i == 0 && j > 1 {
        assert trail[j - 1] < trail[0];
      }
    }
  }

  /** One more move in front of a chain; `longer` is the new length. */
  lemma ReachesByStep<T>(moves: T -> seq<T>, from: T, n: T, to: T, steps: nat, longer: nat)
    requires n in moves(from) && Reaches(moves, n, to, steps) && longer == steps + 1
    ensures Reaches(moves, from, to, longer)
  {
  }

  /** A chain of moves from a state satisfying a closed invariant ends in a
      state satisfying it. */
  lemma {:induction false} ReachesKeepsInvariant<T(!new)>(moves: T -> seq<T>, inv: T -> bool, from: T, to: T, steps: nat)
    requires Closed(moves, inv) && inv(from) && Reaches(moves, from, to, steps)
    ensures inv(to)
    decreases steps
  {
    if steps > 0 {
      var n :| n in moves(from) && Reaches(moves, n, to, steps - 1);
      ReachesKeepsInvariant(moves, inv, n, to, steps - 1);
    }
  }

  // ---------------------------------------------------------------------------
  // The whole loop

  /** With a round that strictly improves along `moves` from every state of a
      closed invariant, the loop never aborts and its outcome meets the
      guarantees: every round it runs lowers the best score strictly, and it
      reports a local optimum only where no move improves. */
  lemma {:induction false} ClimbSpec<T(!new)>(moves: T -> seq<T>, score: T -> real, round: Round<T>, inv: T -> bool,
                                        best: T, bestScore: real, fuel: nat)
    requires Improving(moves, score, round, inv) && Closed(moves, inv)
    requires inv(best) && bestScore == score(best)
    ensures Climb(round, best, bestScore, fuel).Success?
    ensures Guarantees(moves, score, best, bestScore, fuel, Climb(round, best, bestScore, fuel).value)
    decreases fuel
  {
    if bestScore <= 0.0 || fuel == 0 {
      ClimbStops(moves, score, round, best, bestScore, fuel);
    } else {
      var result := round(best, bestScore);
      assert RoundOk(moves, score, best, result);
      if result.value.None? {
        ClimbAtOptimum(moves, score, round, best, bestScore, fuel);
      } else {
        var next := result.value.value.0;
        var nextScore := result.value.value.1;
        assert inv(next);
        var k: nat := fuel - 1;
        ClimbSpec(moves, score, round, inv, next, nextScore, k);
        ClimbAdopts(moves, score, round, best, bestScore, fuel, k, next, nextScore);
      }
    }
  }
}
