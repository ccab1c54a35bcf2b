# supershake optimiser, modelled in Dafny

supershake searches for a daily diet. It mixes foods from the USDA nutrient
database and scores each mix against nutrient targets. It then improves the
mix by hill climbing, five grams at a time. This project models the
optimisation core of `main.go` and proves properties of it.

- **Penalty** (`penalty.dfy`): `calcPenalty`. This is a shortfall ramp below
  the minimum, a free zone up to the midpoint of `[min, max]`, and an unclamped
  excess ramp above the midpoint. A maximum of 0 means there is no upper bound.
- **Catalog** (`catalog.dfy`): the loaded nutrients, the name→id map and the
  foods, given as input. The foods are a sequence with distinct ids, and every
  nutrient entry of a food refers to a known nutrient. `AmountIn` is the
  quantity of one nutrient that some grams of a food contribute.
- **Recipes** (`recipe.dfy`): the `Recipe` type with `NewRecipe`, `Equals`,
  `HasFood`, `AddFood`, `RemoveFood` and `Clone`. Its consistency invariant
  says each nutrient total is the sum, over the held foods, of grams × amount
  per gram. That is the check written out in `AssertConsistency`; here it is
  proved to be preserved rather than checked at run time.
- **Scoring** (`scoring.dfy`, `targets.dfy`, `mapsums.dfy`):
  - `calculatePenaltyForNutrient` and `Score` over any table of targets;
  - the program's own 39-row table.
- **Descent** (`descent.dfy`): the loop of rounds in `main`, stated for any
  round function and any kind of state. It stops when the score is no longer
  positive or a round finds nothing better, and aborts if a round ever adopts
  a worse score.
- **HillClimb** (`search.dfy`): the program's round inside that loop, and the
  search built from the two. A round clones the best recipe. For each food it
  tries removing one step (when the food is held) and adding one step, and
  undoes each trial at once. It keeps the first trial that scores strictly
  below everything seen. The search repeats rounds until:
  - the score is no longer positive; or
  - a round finds nothing better; or
  - a round budget runs out.

  The objective is a parameter (`score: Recipe -> real`), so every search
  property holds for any objective. `Objective` supplies the program's own
  `Score`.
- **Twiddles** (`twiddles.dfy`): the `~…~` field check and the strip helper
  used by the loader. Both index and slice the field's bytes, so a field is
  modelled as a byte sequence, and a multi-byte character counts as several
  bytes, as it does in Go.

Modelling choices:

- **Numbers.** Go's `float64` is modelled as `real`, so sums are exact. Grams
  are unbounded integers.
- **Maps.** A Go map read of a missing key yields the zero value; this is `Get`
  and `Grams`.
- **Panics.** A `panic` is a `Failure` of `Result`. The search's `panic("wtf")`
  is the `ScoreIncreased` failure, and `SearchSpec` proves it cannot happen.
- **Recipe operations.** The mutating methods are pure functions that return
  the new recipe. The search's mutate-score-undo loop on a working recipe is
  modelled as written: `SearchRound` (main.go:803-846) clones the best recipe
  and runs `ScanFoods` (main.go:811-845) over the foods, which calls
  `TryRemoval` (main.go:820-831) and `TryAddition` (main.go:835-844) for each
  food. The scan is then proved equal to a reference
  definition: the first strict minimum (`PickBest`) over the list of
  neighbours (`Neighbours`).

## Model

| member | source | states |
|---|---|---|
| Penalty.CalcPenalty | main.go:359-386 | Below a positive minimum the penalty is positive, and under 100 exactly when some of the nutrient is present. With no maximum, reaching the minimum costs nothing. Nothing is charged from the minimum to below the midpoint. For a valid range it is never negative. It is 0 exactly from the minimum up to and including the midpoint, or from the minimum on when there is no maximum. |
| Penalty.PenaltyAnchors | main.go:359-385 | An amount of 0 costs 100, the minimum costs 0, and the maximum costs exactly 100. |
| Penalty.PenaltyUnclamped | main.go:373-377 | Past the maximum the penalty exceeds 100 and keeps increasing strictly; it is not capped. |
| Penalty.ShortfallDecreasing | main.go:360-362 | Below the minimum, more of the nutrient always means strictly less penalty. |
| Penalty.NoMaximumSaturates | main.go:365-382 | With maximum 0, every amount at or above a positive minimum is penalty free. |
| Penalty.PenaltyShape | main.go:359-385 | Worked values on [10, 30]: 5→50, 10→0, 20→0, 25→50, 30→100, 40→200. |
| Recipes.NewRecipe | main.go:390-401 | The new recipe holds no food, has a 0 total for every catalog nutrient, and satisfies the consistency invariant. |
| Recipes.Equals | main.go:403-423 | True exactly when the two quantity maps are equal; nutrient totals are not compared. |
| Recipes.AddFood | main.go:430-448 | The food is held with q more grams than before (q if it was absent), and no other quantity changes. Each total grows by q grams' worth of the food; a total for a new nutrient id appears. |
| Recipes.RemoveFood | main.go:450-477 | Refused when the food is absent, or when more grams are asked for than are held; it succeeds exactly otherwise. Then q grams come off, and the entry is deleted when it reaches 0, so no zero entry remains. Other quantities are unchanged, and each total drops by q grams' worth of the food. |
| Recipes.Clone | main.go:510-526 | The clone `Equals` the original. Its totals agree with the original's everywhere, and it is the original itself once the totals cover the catalog. |
| Recipes.AddFoodKeepsValid | main.go:479-507 | Adding a positive amount of a catalog food preserves positive quantities and the invariant "total = Σ grams × amount per gram". |
| Recipes.RemoveFoodKeepsValid | main.go:479-507 | A successful removal preserves positive quantities and the consistency invariant. |
| Recipes.TotalsNonNegative | main.go:479-507 | In a consistent recipe over non-negative food data, no nutrient total is negative. |
| Recipes.AddThenRemove | main.go:835-844 | Adding q grams of a food and then removing them restores both maps exactly (the "always undo" of the addition trial). |
| Recipes.RemoveThenAdd | main.go:820-831 | A successful removal followed by adding the same grams back restores the recipe exactly (the undo of the removal trial). |
| Scoring.TargetPenalty | main.go:528-534 | A target row's penalty is never negative, and is 0 exactly when the named nutrient's total is in the row's safe zone. An unknown name reads id 0 and, with nothing recorded there, costs the full 100. |
| Scoring.TablePenalty | main.go:604-724 | The sum over a table of valid targets is never negative. |
| Scoring.CaffeinePenalty | main.go:741-746 | Nothing up to 20; above 20 the charge is the amount less 5, so it jumps to more than 15 at the threshold. |
| Scoring.Capped | main.go:758-767 | `min(ratio, 1) * 10` lies in [0, 10] for a non-negative ratio and is exactly 10 from ratio 1 on. |
| Scoring.FoodCountPenalty | main.go:751-760 | The penalty for the number of non-zero foods is in [0, 10], and is 10 from 100 foods on. |
| Scoring.MassPenalty | main.go:762-769 | The mass penalty is in [0, 10] when the total grams are non-negative, and is 10 from 3000 g on. |
| Scoring.FoodCountOfPositive | main.go:751-757 | With only positive quantities, the counted foods are exactly the entries of the quantity map. |
| MapSums.SumOfPositive | main.go:762-766 | With only positive quantities, the total mass is at least the number of foods. |
| Scoring.EmptyRecipeScore | main.go:537-772 | The empty recipe scores 100 for each table row plus 100 each for Phe+Tyr and folate, and 0 for everything else. |
| Scoring.ScoreNonNegative | main.go:537-772 | A valid recipe over non-negative food data never scores below 0. |
| TargetTable.TargetsAreValid | main.go:604-724 | Every one of the program's 39 rows has a positive minimum and either no maximum or a maximum above the minimum. |
| TargetTable.EmptyRecipeScoresTable | main.go:795-797 | Under the program's table the empty starting recipe scores 4100. |
| HillClimb.Consider | main.go:822-827 | Recording a trial never raises the best score of the round. |
| HillClimb.ConsiderPicks | main.go:822-827 | Scoring a trial and keeping its clone when it is strictly better is one step of the first-strict-minimum pick. |
| HillClimb.PickBestSpec | main.go:811-846 | If no candidate beats the starting score, the pick is unchanged. Otherwise it is the first candidate of least score: below the start, no higher than any candidate, strictly below every earlier one. |
| HillClimb.TryRemovalPicks | main.go:820-831 | On a recipe of step multiples, the removal trial never aborts. Undoing it restores the working recipe, and the scan's choice is the pick over the removal neighbour. |
| HillClimb.TryAdditionPicks | main.go:835-844 | The addition trial's undo never aborts and restores the working recipe; the choice is the pick over the addition neighbour. |
| HillClimb.ScanPicksBest | main.go:809-845 | Scanning all foods on the working recipe ends with the working recipe unchanged, and with the same choice as the first strict minimum over the full neighbour list. |
| HillClimb.AddStepReachable | main.go:785-844 | Adding one 5 g step keeps every quantity a positive multiple of 5. |
| HillClimb.RemoveStepReachable | main.go:785-844 | Removing one 5 g step keeps every quantity a positive multiple of 5 (a step that reaches 0 deletes the entry). |
| HillClimb.NeighboursStayValid | main.go:814-844 | Every trial recipe of a round is consistent with positive quantities, all multiples of the step. |
| HillClimb.NeighboursStayCovered | main.go:814-844 | Trials never lose a nutrient total, so they keep covering the catalog. |
| HillClimb.ReachesKeepsValid | main.go:799-870 | Any recipe reached by a chain of trial moves from a valid recipe is valid. |
| HillClimb.RoundPicks | main.go:803-846 | From a covered recipe, the round's scan with mutate-and-undo reports exactly the first strict minimum over the neighbour list, starting from the current best score. |
| HillClimb.ReportedPick | main.go:847-869 | The round reports nothing exactly when no candidate scores below the current best; otherwise it reports the first candidate of least score, with that score. |
| HillClimb.RoundIsSteepestDescent | main.go:799-846 | A round never aborts. It finds nothing exactly when no neighbour scores strictly below the current best; otherwise it adopts the first neighbour of least score. |
| HillClimb.RoundImproves | main.go:803-869 | From a covered recipe, the round never aborts. It reports nothing only when no trial scores below the recipe. Otherwise it adopts one of the trials, with that trial's own score, strictly lower. |
| HillClimb.SearchSpec | main.go:799-870 | The search never reaches `panic("wtf")`. Each round it runs strictly lowers the best score, and the outcome is reached by trial moves. It stops at a score ≤ 0 exactly when it reports reaching zero. It reports a local optimum only when no trial improves, and runs out of rounds only after using them all. |
| Descent.ClimbSpec | main.go:799-870 | For any round that never aborts and adopts only strictly better moves, from every state of a closed invariant, the loop never aborts. Its trail of scores falls strictly from the start to the final score, one entry per round. Each way of stopping means what its name says. |
| Descent.ClimbStops | main.go:799-799 | With a score ≤ 0 the loop does not run, and the outcome is the current state. That is reported as reaching zero, or as running out of rounds when the budget is spent first. |
| Descent.ClimbAtOptimum | main.go:847-862 | A round without a better candidate ends the loop at the current state, which then has no improving move. |
| Descent.ClimbAdopts | main.go:863-869 | A round with a strictly better candidate continues the loop from it, and the guarantees carry over with one more strictly lower score on the trail. |
| Descent.ReachesKeepsInvariant | main.go:799-870 | A chain of moves from a state satisfying a closed invariant ends in a state satisfying it. |
| HillClimb.OutcomeValid | main.go:799-870 | An outcome meeting the guarantees from a valid start holds a valid recipe whose quantities are whole steps. |
| HillClimb.OptimiseSpec | main.go:795-870 | From the empty recipe the search never aborts and meets all the guarantees. Its final score is no higher than the start's, and it ends at a recipe consistent with the catalog whose quantities are positive multiples of 5 g. |
| HillClimb.EmptyCatalogStopsAtStart | main.go:799-862 | With no foods and a positive starting score, the search stops after one round at the empty recipe, as a local optimum. |
| HillClimb.EmptyCatalogOptimum | main.go:795-861 | With no foods and any valid table, the search ends at once at score 100 × (rows + 2). |
| TargetTable.EmptyCatalogOptimumUnderTable | main.go:795-861 | With no foods, under the program's table, the search stops at the empty recipe with score 4100. |
| Twiddles.CheckTwiddles | main.go:69-73 | An empty field aborts on the index. Otherwise the check passes exactly when the first and last bytes are `~`. |
| Twiddles.StripTwiddles | main.go:75-77 | Stripping succeeds exactly on fields of at least two bytes, whatever they are, and returns the inner bytes in order. |
| Twiddles.StripWholeBytes | main.go:75-77 | Stripping slices bytes, not characters: a field holding one two-byte character strips to the empty field, and a one-byte field aborts. |
| Twiddles.EncloseRoundTrip | main.go:69-77 | A text enclosed in `~` passes the check and strips back to itself. |
| Twiddles.CheckTwiddlesStrict | main.go:69-73 | The corrected check accepts exactly the fields of at least two bytes that start and end with `~`. |
| Twiddles.StrictCheckedFieldsAreEnclosed | main.go:69-77 | Every field the corrected check accepts can be stripped, and enclosing the result gives the field back. |
| Twiddles.LoneTwiddlePassesCheck | main.go:69-77 | The field `~` passes the check as written but makes stripping abort; the corrected check rejects it. |

## Left out

- Reading the USDA files (`makeUSDADataReader`, `getNutrientsAndFoods`, main.go:50-67 and 79-357) is I/O. The catalog is an input. `WellFormed` states what loading guarantees: distinct food ids, and food entries that name known nutrients.
- Printing and verbose tracing (`PrintNutrients`, `PrintTotalNutrients`, the `verbose` output in `calcPenalty` and `Score`, the local-optimum report) have no effect on results.
- The CPU profiling in `main` is left out because it has no effect on results.
- IEEE `float64` rounding, and the 0.5 tolerance of the consistency check. Totals are exact reals, so the invariant is stated with equality.
- Go's randomised iteration order over the food map. The catalog is a fixed sequence. Which of several equally good trials is adopted depends on that order; the adopted score (the least one) does not.
- Descent.Climb: the Go loop has no round limit. The model takes a `fuel` budget of rounds and reports `OutOfRounds` when it is spent. Strictly falling real scores need not reach a local optimum in finitely many rounds, so the model does not prove that the search terminates.
- Penalty.CalcPenalty: the model requires its divisions to be defined (no division by zero). Go would produce an infinity or NaN there; floating-point specials are not modelled. Every table row, and both combined terms, meet the requirement.
- Recipes.HasFood: it is a one-line membership test. It has no contract of its own; it is stated through the contracts of AddFood and RemoveFood.
- `AssertConsistency` has its body commented out in the source. It is modelled as the invariant `Consistent`, proved preserved, rather than as a runtime check.
- `Score` is a plain function without a contract of its own. Its properties are the lemmas EmptyRecipeScore and ScoreNonNegative, together with the contracts of its parts.

## Findings

| source | as written | input that shows it | evidently intended | confidence | as-written member | corrected member |
|---|---|---|---|---|---|---|
| main.go:69-77 | The twiddle check compares `input[0]` and `input[len-1]` with `~`. For a one-byte field these are the same byte, so `"~"` passes. `stripTwiddles` then slices `input[1:0]`, which aborts. | the field `~` | Accept only fields of at least two bytes that start and end with `~`, so that a checked field can always be stripped. | not executed; low impact, since the USDA files enclose every text field in `~` on both sides | Twiddles.LoneTwiddlePassesCheck | Twiddles.StrictCheckedFieldsAreEnclosed |
