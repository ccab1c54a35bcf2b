/** The hill-climbing search. One round clones the best recipe into a working
    recipe and, for each catalog food in order, tries removing one step of it
    (when held) and adding one step, scoring each trial and undoing it at once.
    The strictly best trial of the round becomes the next best recipe; a round
    with no strictly better trial ends the search at a local optimum. */
module HillClimb {
  import opened Results
  import opened Catalog
  import opened Recipes
  import opened Scoring
  import opened Descent

  /** Grams added or removed by one trial move. */
  const StepSize: int := 5

  /** The best trial found so far in a round and its score. */
  datatype Choice = Choice(candidate: Option<Recipe>, score: real)

  /** The state of a round: the working recipe and the best trial so far. */
  datatype Scan = Scan(work: Recipe, best: Choice)

  /** The program's objective: the score of a recipe against a target table.
      The search below is stated for any objective `score: Recipe -> real`. */
  function Objective(cat: Catalog, targets: seq<Target>): (score: Recipe -> real)
    requires ValidTargets(targets)
    ensures forall r :: score(r) == Score(targets, cat.nameToId, r)
  {
    r => Score(targets, cat.nameToId, r)
  }

  /** Every quantity the search can reach: a positive multiple of the step. */
  predicate Reachable(r: Recipe)
  {
    forall id :: id in r.foodQuantities ==> r.foodQuantities[id] > 0 && r.foodQuantities[id] % StepSize == 0
  }

  /** The recipe's totals have an entry for every catalog nutrient and for
      every nutrient any catalog food contains. Valid recipes of a well-formed
      catalog cover it, and trials never lose an entry. */
  predicate Covers(cat: Catalog, r: Recipe)
  {
    && cat.nutrients.Keys <= r.nutrientTotals.Keys
    && forall i :: 0 <= i < |cat.foods| ==> NutrientIds(cat.foods[i].nutrients) <= r.nutrientTotals.Keys
  }

  // ---------------------------------------------------------------------------
  // One round, as the program runs it on a working recipe

  /** Scores a trial; a strictly better one is recorded (as a clone). */
  function Consider(cat: Catalog, score: Recipe -> real, s: Scan, trial: Recipe): (s': Scan)
    ensures s'.work == trial
    ensures s'.best.score <= s.best.score
  {
    var trialScore := score(trial);
    if trialScore < s.best.score then Scan(trial, Choice(Some(Clone(cat, trial)), trialScore))
    else Scan(trial, s.best)
  }

  /** Remove one step of a held food, score, then add it back. */
  function TryRemoval(cat: Catalog, score: Recipe -> real, s: Scan, f: Food): Result<Scan>
  {
    if !HasFood(s.work, f) then Success(s)
    else
      var removed :- RemoveFood(s.work, f, StepSize);
      var s' := Consider(cat, score, s, removed);
      Success(Scan(AddFood(s'.work, f, StepSize), s'.best))
  }

  /** Add one step of a food, score, then remove it again. */
  function TryAddition(cat: Catalog, score: Recipe -> real, s: Scan, f: Food): Result<Scan>
  {
    var added := AddFood(s.work, f, StepSize);
    var s' := Consider(cat, score, s, added);
    var undone :- RemoveFood(s'.work, f, StepSize);
    Success(Scan(undone, s'.best))
  }

  function ScanFoods(cat: Catalog, score: Recipe -> real, s: Scan, foods: seq<Food>): Result<Scan>
    decreases |foods|
  {
    if |foods| == 0 then Success(s)
    else
      var afterRemoval :- TryRemoval(cat, score, s, foods[0]);
      var afterAddition :- TryAddition(cat, score, afterRemoval, foods[0]);
      ScanFoods(cat, score, afterAddition, foods[1..])
  }

  /** One round from `best`: the adopted recipe and its score, or None at a
      local optimum. */
  function SearchRound(cat: Catalog, score: Recipe -> real, best: Recipe, bestScore: real): Result<Option<(Recipe, real)>>
  {
    var s :- ScanFoods(cat, score, Scan(Clone(cat, best), Choice(None, bestScore)), cat.foods);
    match s.best.candidate
    case None => Success(None)
    case Some(r) => Success(Some((r, s.best.score)))
  }

  /** The program's round as a function of the best recipe and its score. */
  function RoundOf(cat: Catalog, score: Recipe -> real): (round: Round<Recipe>)
    ensures forall b, s :: round(b, s) == SearchRound(cat, score, b, s)
  {
    (b, s) => SearchRound(cat, score, b, s)
  }

  /** The search: the program's loop of rounds, starting from `best`. */
  function Search(cat: Catalog, score: Recipe -> real, best: Recipe, bestScore: real, fuel: nat): Result<Outcome<Recipe>>
  {
    Climb(RoundOf(cat, score), best, bestScore, fuel)
  }

  /** The whole optimisation: start from the empty recipe. */
  function Optimise(cat: Catalog, score: Recipe -> real, fuel: nat): Result<Outcome<Recipe>>
  {
    var start := NewRecipe(cat);
    Search(cat, score, start, score(start), fuel)
  }

  // ---------------------------------------------------------------------------
  // Reference definition: the neighbours of a recipe and the first strict minimum

  /** The removal trial for one food: present only when the food is held and
      a step of it can come off. */
  function RemovalTrial(base: Recipe, f: Food): seq<Recipe>
  {
    if !HasFood(base, f) then []
    else match RemoveFood(base, f, StepSize)
      case Success(r) => [r]
      case Failure(_) => []
  }

  /** The trial recipes for one food, in the order they are tried. */
  function Trials(base: Recipe, f: Food): seq<Recipe>
  {
    RemovalTrial(base, f) + [AddFood(base, f, StepSize)]
  }

  function Neighbours(base: Recipe, foods: seq<Food>): seq<Recipe>
    decreases |foods|
  {
    if |foods| == 0 then [] else Trials(base, foods[0]) + Neighbours(base, foods[1..])
  }

  /** Each candidate paired with its score. */
  function Scored(score: Recipe -> real, cands: seq<Recipe>): (scored: seq<(Recipe, real)>)
    ensures |scored| == |cands|
  {
    seq(|cands|, i requires 0 <= i < |cands| => (cands[i], score(cands[i])))
  }

  /** Scan scored candidates in order, keeping the first one whose score is
      strictly below everything seen so far. */
  function PickBest(scored: seq<(Recipe, real)>, ch: Choice): Choice
    decreases |scored|
  {
    if |scored| == 0 then ch
    else PickBest(scored[1..], if scored[0].1 < ch.score then Choice(Some(scored[0].0), scored[0].1) else ch)
  }

  /** `i` is the first position holding the least score, and that score is below `bound`. */
  ghost predicate FirstStrictMin(scored: seq<(Recipe, real)>, i: int, bound: real)
  {
    && 0 <= i < |scored|
    && scored[i].1 < bound
    && (forall j :: 0 <= j < |scored| ==> scored[i].1 <= scored[j].1)
    && (forall j :: 0 <= j < i ==> scored[i].1 < scored[j].1)
  }

  // ---------------------------------------------------------------------------
  // The first strict minimum

  lemma {:induction false} PickBestAppend(a: seq<(Recipe, real)>, b: seq<(Recipe, real)>, ch: Choice)
    ensures PickBest(a + b, ch) == PickBest(b, PickBest(a, ch))
    decreases |a|
  {
    if |a| > 0 {
      var ch1 := if a[0].1 < ch.score then Choice(Some(a[0].0), a[0].1) else ch;
      assert (a + b)[0] == a[0];
      assert (a + b)[1..] == a[1..] + b;
      PickBestAppend(a[1..], b, ch1);
    } else {
      assert a + b == b;
    }
  }

  /** Picking from a list either keeps the starting choice, when no candidate
      beats its score, or selects the first candidate of least score. */
  lemma {:induction false} PickBestSpec(scored: seq<(Recipe, real)>, ch: Choice)
    ensures (forall j :: 0 <= j < |scored| ==> scored[j].1 >= ch.score) ==> PickBest(scored, ch) == ch
    ensures (exists j :: 0 <= j < |scored| && scored[j].1 < ch.score) ==>
      exists i :: FirstStrictMin(scored, i, ch.score) && PickBest(scored, ch) == Choice(Some(scored[i].0), scored[i].1)
    decreases |scored|
  {
    if |scored| > 0 {
      var rest := scored[1..];
      var sc := scored[0].1;
      var ch1 := if sc < ch.score then Choice(Some(scored[0].0), sc) else ch;
      var r := PickBest(scored, ch);
      assert r == PickBest(rest, ch1);
      PickBestSpec(rest, ch1);
      assert forall j :: 1 <= j < |scored| ==> scored[j] == rest[j - 1];
      if forall j :: 0 <= j < |rest| ==> rest[j].1 >= ch1.score {
        if sc < ch.score {
          assert FirstStrictMin(scored, 0, ch.score);
        }
      } else {
        var i' :| FirstStrictMin(rest, i', ch1.score) && r == Choice(Some(rest[i'].0), rest[i'].1);
        assert scored[i' + 1] == rest[i'];
        assert FirstStrictMin(scored, i' + 1, ch.score);
      }
    }
  }

  lemma ScoredAppend(score: Recipe -> real, a: seq<Recipe>, b: seq<Recipe>)
    ensures Scored(score, a + b) == Scored(score, a) + Scored(score, b)
  {
  }

  // ---------------------------------------------------------------------------
  // The working-recipe scan agrees with the reference definition

  /** Recording a trial in the scan is one step of the pick, because the
      clone of a trial is the trial itself. */
  lemma ConsiderPicks(cat: Catalog, score: Recipe -> real, s: Scan, trial: Recipe)
    requires cat.nutrients.Keys <= trial.nutrientTotals.Keys
    ensures Consider(cat, score, s, trial) == Scan(trial, PickBest(Scored(score, [trial]), s.best))
  {
    var scored := Scored(score, [trial]);
    assert scored[0] == (trial, score(trial));
    assert scored[1..] == [];
  }

  /** A removal trial is always possible on a reachable recipe, and undoing it
      restores the working recipe. */
  lemma TryRemovalPicks(cat: Catalog, score: Recipe -> real, base: Recipe, ch: Choice, f: Food)
    requires Reachable(base)
    requires cat.nutrients.Keys <= base.nutrientTotals.Keys
    requires NutrientIds(f.nutrients) <= base.nutrientTotals.Keys
    ensures TryRemoval(cat, score, Scan(base, ch), f)
      == Success(Scan(base, PickBest(Scored(score, RemovalTrial(base, f)), ch)))
  {
    if HasFood(base, f) {
      assert base.foodQuantities[f.id] >= StepSize;
      var removed := RemoveFood(base, f, StepSize).value;
      assert RemovalTrial(base, f) == [removed];
      ConsiderPicks(cat, score, Scan(base, ch), removed);
      RemoveThenAdd(base, f, StepSize);
    }
  }

  /** An addition trial can always be undone, restoring the working recipe. */
  lemma TryAdditionPicks(cat: Catalog, score: Recipe -> real, base: Recipe, ch: Choice, f: Food)
    requires Reachable(base)
    requires cat.nutrients.Keys <= base.nutrientTotals.Keys
    requires NutrientIds(f.nutrients) <= base.nutrientTotals.Keys
    ensures TryAddition(cat, score, Scan(base, ch), f)
      == Success(Scan(base, PickBest(Scored(score, [AddFood(base, f, StepSize)]), ch)))
  {
    var added := AddFood(base, f, StepSize);
    ConsiderPicks(cat, score, Scan(base, ch), added);
    AddThenRemove(base, f, StepSize);
  }

  /** Scanning the foods with mutate-and-undo on the working recipe picks the
      same recipe as the first strict minimum over the list of neighbours. */
  lemma {:induction false} ScanPicksBest(cat: Catalog, score: Recipe -> real, base: Recipe, ch: Choice, foods: seq<Food>)
    requires Reachable(base)
    requires cat.nutrients.Keys <= base.nutrientTotals.Keys
    requires forall i :: 0 <= i < |foods| ==> NutrientIds(foods[i].nutrients) <= base.nutrientTotals.Keys
    ensures ScanFoods(cat, score, Scan(base, ch), foods)
      == Success(Scan(base, PickBest(Scored(score, Neighbours(base, foods)), ch)))
    decreases |foods|
  {
    if |foods| > 0 {
      var f := foods[0];
      var removal := Scored(score, RemovalTrial(base, f));
      var addition := Scored(score, [AddFood(base, f, StepSize)]);
      var rest := Scored(score, Neighbours(base, foods[1..]));
      TryRemovalPicks(cat, score, base, ch, f);
      var ch1 := PickBest(removal, ch);
      TryAdditionPicks(cat, score, base, ch1, f);
      var ch2 := PickBest(addition, ch1);
      ScanPicksBest(cat, score, base, ch2, foods[1..]);
      ScoredAppend(score, RemovalTrial(base, f), [AddFood(base, f, StepSize)]);
      ScoredAppend(score, Trials(base, f), Neighbours(base, foods[1..]));
      PickBestAppend(removal, addition, ch);
      PickBestAppend(removal + addition, rest, ch);
    }
  }

  // ---------------------------------------------------------------------------
  // Neighbours stay valid and reachable

  lemma AddStepReachable(r: Recipe, f: Food)
    requires Reachable(r)
    ensures Reachable(AddFood(r, f, StepSize))
  {
    var r' := AddFood(r, f, StepSize);
    forall id | id in r'.foodQuantities
      ensures r'.foodQuantities[id] > 0 && r'.foodQuantities[id] % StepSize == 0
    {
      if id == f.id {
        assert r'.foodQuantities[id] == Grams(r.foodQuantities, id) + StepSize;
      } else {
        assert id in r.foodQuantities;
      }
    }
  }

  lemma RemoveStepReachable(r: Recipe, f: Food)
    requires Reachable(r) && RemoveFood(r, f, StepSize).Success?
    ensures Reachable(RemoveFood(r, f, StepSize).value)
  {
    var r' := RemoveFood(r, f, StepSize).value;
    forall id | id in r'.foodQuantities
      ensures r'.foodQuantities[id] > 0 && r'.foodQuantities[id] % StepSize == 0
    {
      if id == f.id {
        assert r'.foodQuantities[id] == r.foodQuantities[id] - StepSize;
      } else {
        assert id in r'.foodQuantities.Keys - {f.id};
      }
    }
  }

  lemma TrialsStayValid(cat: Catalog, base: Recipe, f: Food)
    requires WellFormed(cat) && f in cat.foods && Valid(cat, base) && Reachable(base)
    ensures forall i :: 0 <= i < |Trials(base, f)| ==> Valid(cat, Trials(base, f)[i]) && Reachable(Trials(base, f)[i])
  {
    AddFoodKeepsValid(cat, base, f, StepSize);
    AddStepReachable(base, f);
    if HasFood(base, f) {
      assert base.foodQuantities[f.id] >= StepSize;
      RemoveFoodKeepsValid(cat, base, f, StepSize);
      RemoveStepReachable(base, f);
    }
  }

  /** Every trial of a round is a valid recipe whose quantities are positive
      multiples of the step. */
  lemma {:induction false} NeighboursStayValid(cat: Catalog, base: Recipe, foods: seq<Food>)
    requires WellFormed(cat) && Valid(cat, base) && Reachable(base)
    requires forall i :: 0 <= i < |foods| ==> foods[i] in cat.foods
    ensures forall n :: n in Neighbours(base, foods) ==> Valid(cat, n) && Reachable(n)
    decreases |foods|
  {
    if |foods| > 0 {
      TrialsStayValid(cat, base, foods[0]);
      NeighboursStayValid(cat, base, foods[1..]);
    }
  }

  lemma ValidCovers(cat: Catalog, r: Recipe)
    requires WellFormed(cat) && Consistent(cat, r)
    ensures Covers(cat, r)
  {
  }

  /** Trials only ever add entries to the totals, so they keep covering the catalog. */
  lemma {:induction false} NeighboursStayCovered(cat: Catalog, base: Recipe, foods: seq<Food>)
    requires Covers(cat, base) && Reachable(base)
    ensures forall n :: n in Neighbours(base, foods) ==> Covers(cat, n) && Reachable(n)
    decreases |foods|
  {
    if |foods| > 0 {
      var f := foods[0];
      AddStepReachable(base, f);
      if HasFood(base, f) {
        assert base.foodQuantities[f.id] >= StepSize;
        RemoveStepReachable(base, f);
      }
      NeighboursStayCovered(cat, base, foods[1..]);
    }
  }

  // ---------------------------------------------------------------------------
  // One round is a step of steepest descent

  /** No scored candidate below `bound` means no candidate scoring below it. */
  lemma NoneBelow(score: Recipe -> real, cands: seq<Recipe>, bound: real)
    ensures (forall j :: 0 <= j < |cands| ==> Scored(score, cands)[j].1 >= bound)
      <==> (forall n :: n in cands ==> score(n) >= bound)
  {
    var scored := Scored(score, cands);
    if forall j :: 0 <= j < |scored| ==> scored[j].1 >= bound {
      forall n | n in cands ensures score(n) >= bound {
        var j :| 0 <= j < |cands| && cands[j] == n;
        assert scored[j].1 >= bound;
      }
    }
  }

  /** What a round reports once its pick is known. */
  function Reported(ch: Choice): Result<Option<(Recipe, real)>>
  {
    match ch.candidate
    case None => Success(None)
    case Some(r) => Success(Some((r, ch.score)))
  }

  /** A round from a covered recipe reports the first strict minimum over its
      neighbours, starting from the current best score. */
  lemma RoundPicks(cat: Catalog, score: Recipe -> real, best: Recipe, bestScore: real)
    requires Covers(cat, best) && Reachable(best)
    ensures SearchRound(cat, score, best, bestScore)
      == Reported(PickBest(Scored(score, Neighbours(best, cat.foods)), Choice(None, bestScore)))
  {
    assert Clone(cat, best) == best;
    ScanPicksBest(cat, score, best, Choice(None, bestScore), cat.foods);
  }

  /** Reporting the pick from an empty choice: nothing exactly when no score is
      below the bound, otherwise the first strict minimum. */
  lemma ReportedPick(scored: seq<(Recipe, real)>, bound: real)
    ensures var round := Reported(PickBest(scored, Choice(None, bound)));
      && round.Success?
      && (round.value.None? <==> forall j :: 0 <= j < |scored| ==> scored[j].1 >= bound)
      && (round.value.Some? ==> exists i :: FirstStrictMin(scored, i, bound) && round.value.value == scored[i])
  {
    PickBestSpec(scored, Choice(None, bound));
  }

  /** A round from a covered recipe never fails. It reports a local optimum
      exactly when no neighbour scores strictly below the current best;
      otherwise it adopts the first neighbour of least score. */
  lemma RoundIsSteepestDescent(cat: Catalog, score: Recipe -> real, best: Recipe, bestScore: real)
    requires Covers(cat, best) && Reachable(best)
    ensures SearchRound(cat, score, best, bestScore).Success?
    ensures var round := SearchRound(cat, score, best, bestScore).value;
      var scored := Scored(score, Neighbours(best, cat.foods));
      && (round.None? <==> forall j :: 0 <= j < |scored| ==> scored[j].1 >= bestScore)
      && (round.Some? ==>
            exists i :: FirstStrictMin(scored, i, bestScore) && round.value == scored[i])
  {
    RoundPicks(cat, score, best, bestScore);
    ReportedPick(Scored(score, Neighbours(best, cat.foods)), bestScore);
  }

  // ---------------------------------------------------------------------------
  // The whole search

  /** The moves of the search: the trial recipes of a round. */
  function Moves(cat: Catalog): (moves: Recipe -> seq<Recipe>)
    ensures forall r :: moves(r) == Neighbours(r, cat.foods)
  {
    r => Neighbours(r, cat.foods)
  }

  /** The recipes the search works on: covering the catalog, in whole steps. */
  function Covered(cat: Catalog): (inv: Recipe -> bool)
    ensures forall r :: inv(r) == (Covers(cat, r) && Reachable(r))
  {
    r => Covers(cat, r) && Reachable(r)
  }

  /** From a covered recipe the program's round strictly improves: it finds
      nothing only when no trial scores below the recipe, and otherwise adopts
      a trial together with that trial's strictly lower score. */
  lemma RoundImproves(cat: Catalog, score: Recipe -> real, b: Recipe)
    requires Covers(cat, b) && Reachable(b)
    ensures var round := SearchRound(cat, score, b, score(b));
      && round.Success?
      && (round.value.None? ==> forall n :: n in Neighbours(b, cat.foods) ==> score(n) >= score(b))
      && (round.value.Some? ==>
            && round.value.value.0 in Neighbours(b, cat.foods)
            && round.value.value.1 == score(round.value.value.0)
            && round.value.value.1 < score(b))
  {
    var nbrs := Neighbours(b, cat.foods);
    var scored := Scored(score, nbrs);
    RoundIsSteepestDescent(cat, score, b, score(b));
    var round := SearchRound(cat, score, b, score(b)).value;
    if round.None? {
      NoneBelow(score, nbrs, score(b));
    } else {
      var i :| FirstStrictMin(scored, i, score(b)) && round.value == scored[i];
      assert scored[i] == (nbrs[i], score(nbrs[i]));
      assert nbrs[i] in nbrs;
    }
  }

  lemma RoundsImprove(cat: Catalog, score: Recipe -> real)
    ensures Improving(Moves(cat), score, RoundOf(cat, score), Covered(cat))
  {
    forall b | Covered(cat)(b)
      ensures RoundOk(Moves(cat), score, b, RoundOf(cat, score)(b, score(b)))
    {
      RoundImproves(cat, score, b);
      RoundOkFrom(Moves(cat), score, b, RoundOf(cat, score)(b, score(b)), Neighbours(b, cat.foods));
    }
  }

  /** The recipes the search ends at: valid, in whole steps. */
  function ValidIn(cat: Catalog): (inv: Recipe -> bool)
    ensures forall r :: inv(r) == (Valid(cat, r) && Reachable(r))
  {
    r => Valid(cat, r) && Reachable(r)
  }

  lemma MovesStayValid(cat: Catalog)
    requires WellFormed(cat)
    ensures Closed(Moves(cat), ValidIn(cat))
  {
    forall b, n | ValidIn(cat)(b) && n in Moves(cat)(b) ensures ValidIn(cat)(n) {
      NeighboursStayValid(cat, b, cat.foods);
    }
  }

  /** Every recipe reached by trial moves from a valid one is valid. */
  lemma ReachesKeepsValid(cat: Catalog, from: Recipe, to: Recipe, steps: nat)
    requires WellFormed(cat) && Valid(cat, from) && Reachable(from)
    requires Reaches(Moves(cat), from, to, steps)
    ensures Valid(cat, to) && Reachable(to)
  {
    MovesStayValid(cat);
    ReachesKeepsInvariant(Moves(cat), ValidIn(cat), from, to, steps);
  }

  lemma MovesStayCovered(cat: Catalog)
    ensures Closed(Moves(cat), Covered(cat))
  {
    forall b, n | Covered(cat)(b) && n in Moves(cat)(b) ensures Covered(cat)(n) {
      NeighboursStayCovered(cat, b, cat.foods);
    }
  }

  /** The search from a covered recipe never reaches the program's "score
      increased" abort, and its outcome meets the loop's guarantees over the
      program's trial moves. */
  lemma SearchSpec(cat: Catalog, score: Recipe -> real, best: Recipe, bestScore: real, fuel: nat)
    requires Covers(cat, best) && Reachable(best)
    requires bestScore == score(best)
    ensures Search(cat, score, best, bestScore, fuel).Success?
    ensures Guarantees(Moves(cat), score, best, bestScore, fuel, Search(cat, score, best, bestScore, fuel).value)
  {
    RoundsImprove(cat, score);
    MovesStayCovered(cat);
    ClimbSpec(Moves(cat), score, RoundOf(cat, score), Covered(cat), best, bestScore, fuel);
  }

  /** An outcome meeting the guarantees from a valid start holds a valid recipe. */
  lemma OutcomeValid(cat: Catalog, score: Recipe -> real, start: Recipe, startScore: real, fuel: nat, o: Outcome<Recipe>)
    requires WellFormed(cat) && Valid(cat, start) && Reachable(start)
    requires Guarantees(Moves(cat), score, start, startScore, fuel, o)
    ensures Valid(cat, o.recipe) && Reachable(o.recipe)
  {
    ReachesKeepsValid(cat, start, o.recipe, |o.trail| - 1);
  }

  /** The whole optimisation from the empty recipe enjoys the same guarantees,
      and ends at a valid recipe whose quantities are whole steps. */
  lemma OptimiseSpec(cat: Catalog, score: Recipe -> real, fuel: nat)
    requires WellFormed(cat)
    ensures Optimise(cat, score, fuel).Success?
    ensures Guarantees(Moves(cat), score, NewRecipe(cat), score(NewRecipe(cat)), fuel, Optimise(cat, score, fuel).value)
    ensures Valid(cat, Optimise(cat, score, fuel).value.recipe) && Reachable(Optimise(cat, score, fuel).value.recipe)
  {
    var start := NewRecipe(cat);
    ValidCovers(cat, start);
    SearchSpec(cat, score, start, score(start), fuel);
    OutcomeValid(cat, score, start, score(start), fuel, Optimise(cat, score, fuel).value);
  }

  /** With no foods to try, the search stops at once at the starting recipe. */
  lemma EmptyCatalogStopsAtStart(cat: Catalog, score: Recipe -> real, fuel: nat, start: real)
    requires cat.foods == [] && fuel > 0 && score(NewRecipe(cat)) == start && start > 0.0
    ensures Optimise(cat, score, fuel) == Success(Outcome(NewRecipe(cat), start, [start], LocalOptimum))
  {
    var r := NewRecipe(cat);
    assert SearchRound(cat, score, r, start) == Success(None);
    ClimbAtOptimum(Moves(cat), score, RoundOf(cat, score), r, start, fuel);
  }

  /** The empty recipe scores 100 for every table row plus the two other
      ranged penalties that have a positive minimum. */
  lemma EmptyCatalogOptimum(cat: Catalog, targets: seq<Target>, fuel: nat)
    requires ValidTargets(targets) && cat.foods == [] && fuel > 0
    ensures var start := 100.0 * (|targets| + 2) as real;
      Optimise(cat, Objective(cat, targets), fuel) == Success(Outcome(NewRecipe(cat), start, [start], LocalOptimum))
  {
    EmptyRecipeScore(cat, targets);
    EmptyCatalogStopsAtStart(cat, Objective(cat, targets), fuel, 100.0 * (|targets| + 2) as real);
  }
}
