/** The scoring model (`Score`): the per-nutrient penalty summed over a fixed
    table of daily targets, plus a combined amino-acid term, a derived folate
    term, a caffeine threshold, a raw dihydrophylloquinone term and two capped
    size penalties. Lower is better. */
module Scoring {
  import opened Catalog
  import opened Recipes
  import opened Penalty
  import opened MapSums

  /** One row of the target table: a nutrient looked up by name, with its range. */
  datatype Target = Target(name: string, min: real, max: real)

  predicate ValidTarget(t: Target)
  {
    ValidRange(t.min, t.max)
  }

  predicate ValidTargets(targets: seq<Target>)
  {
    forall i :: 0 <= i < |targets| ==> ValidTarget(targets[i])
  }

  /** The recipe's total for a nutrient named in the table. A name missing from
      the index reads as id 0, and a missing total reads as 0, so an unknown
      name silently contributes an amount of 0. */
  function Amount(nameToId: map<string, int>, r: Recipe, name: string): real
  {
    Get(r.nutrientTotals, if name in nameToId then nameToId[name] else 0)
  }

  /** `calculatePenaltyForNutrient`: the penalty for one table row. */
  function TargetPenalty(nameToId: map<string, int>, r: Recipe, t: Target): (p: real)
    requires ValidTarget(t)
    ensures p >= 0.0
    ensures p == 0.0 <==> InSafeZone(Amount(nameToId, r, t.name), t.min, t.max)
    // an unknown nutrient with nothing recorded under id 0 costs the full 100
    ensures t.name !in nameToId && 0 !in r.nutrientTotals ==> p == 100.0
  {
    CalcPenalty(Amount(nameToId, r, t.name), t.min, t.max)
  }

  function TablePenalty(nameToId: map<string, int>, r: Recipe, targets: seq<Target>): (p: real)
    requires ValidTargets(targets)
    ensures p >= 0.0
    decreases |targets|
  {
    if |targets| == 0 then 0.0
    else TargetPenalty(nameToId, r, targets[0]) + TablePenalty(nameToId, r, targets[1..])
  }

  /** Penalty for caffeine: nothing up to 20, the amount less 5 above it. */
  function CaffeinePenalty(caffeine: real): (p: real)
    ensures caffeine <= 20.0 ==> p == 0.0
    ensures caffeine > 20.0 ==> p == caffeine - 5.0 && p > 15.0
  {
    if caffeine > 20.0 then caffeine - 5.0 else 0.0
  }

  /** `min(x, 1) * 10` for a non-negative ratio x. */
  function Capped(ratio: real): (p: real)
    ensures ratio >= 1.0 ==> p == 10.0
    ensures 0.0 <= ratio ==> 0.0 <= p <= 10.0
  {
    (if ratio < 1.0 then ratio else 1.0) * 10.0
  }

  /** Foods held at a non-zero amount. */
  function FoodCount(quantities: map<int, int>): nat
  {
    |set id | id in quantities.Keys && quantities[id] != 0|
  }

  function FoodCountPenalty(quantities: map<int, int>): (p: real)
    ensures 0.0 <= p <= 10.0
    ensures FoodCount(quantities) >= 100 ==> p == 10.0
  {
    Capped(FoodCount(quantities) as real / 100.0)
  }

  function MassPenalty(quantities: map<int, int>): (p: real)
    ensures SumValues(quantities) >= 0 ==> 0.0 <= p <= 10.0
    ensures SumValues(quantities) >= 3000 ==> p == 10.0
  {
    Capped(SumValues(quantities) as real / 3000.0)
  }

  /** The whole score of a recipe against a table of targets. */
  function Score(targets: seq<Target>, nameToId: map<string, int>, r: Recipe): real
    requires ValidTargets(targets)
  {
    var phenylalanineTyrosine := Amount(nameToId, r, "Phenylalanine") + Amount(nameToId, r, "Tyrosine");
    var folateDFE := Amount(nameToId, r, "Folate, food") + 1.7 * Amount(nameToId, r, "Folic acid");
    TablePenalty(nameToId, r, targets)
    + CalcPenalty(phenylalanineTyrosine, 1.625, 0.0)
    + CalcPenalty(folateDFE, 400.0, 1000.0)
    + CaffeinePenalty(Amount(nameToId, r, "Caffeine"))
    + Amount(nameToId, r, "Dihydrophylloquinone")
    + FoodCountPenalty(r.foodQuantities)
    + MassPenalty(r.foodQuantities)
  }

  // ---------------------------------------------------------------------------
  // Properties

  /** With no food at zero grams, the count is just the number of entries. */
  lemma FoodCountOfPositive(quantities: map<int, int>)
    requires forall id :: id in quantities ==> quantities[id] > 0
    ensures FoodCount(quantities) == |quantities|
  {
    var nonZero := set id | id in quantities.Keys && quantities[id] != 0;
    assert forall id :: id in nonZero <==> id in quantities.Keys;
    assert nonZero == quantities.Keys;
  }

  /** Each row of a valid table costs exactly 100 when its amount is 0. */
  lemma {:induction false} TableAtZero(nameToId: map<string, int>, r: Recipe, targets: seq<Target>)
    requires ValidTargets(targets)
    requires forall n :: Get(r.nutrientTotals, n) == 0.0
    ensures TablePenalty(nameToId, r, targets) == 100.0 * |targets| as real
    decreases |targets|
  {
    if |targets| > 0 {
      PenaltyAnchors(targets[0].min, targets[0].max);
      TableAtZero(nameToId, r, targets[1..]);
    }
  }

  /** The empty recipe scores 100 for each table row and for the two combined
      terms, and nothing for caffeine, dihydrophylloquinone or size. */
  lemma EmptyRecipeScore(cat: Catalog, targets: seq<Target>)
    requires ValidTargets(targets)
    ensures Score(targets, cat.nameToId, NewRecipe(cat)) == 100.0 * (|targets| + 2) as real
  {
    var r := NewRecipe(cat);
    assert forall n :: Get(r.nutrientTotals, n) == 0.0;
    TableAtZero(cat.nameToId, r, targets);
    assert FoodCount(r.foodQuantities) == 0;
    assert SumValues(r.foodQuantities) == 0;
    PenaltyAnchors(1.625, 0.0);
    PenaltyAnchors(400.0, 1000.0);
  }

  /** A valid recipe over a catalog of non-negative amounts never scores below 0. */
  lemma ScoreNonNegative(cat: Catalog, targets: seq<Target>, r: Recipe)
    requires ValidTargets(targets) && NonNegativeAmounts(cat) && Valid(cat, r)
    ensures Score(targets, cat.nameToId, r) >= 0.0
  {
    TotalsNonNegative(cat, r);
    SumOfPositive(r.foodQuantities);
    assert Amount(cat.nameToId, r, "Dihydrophylloquinone") >= 0.0;
    assert CaffeinePenalty(Amount(cat.nameToId, r, "Caffeine")) >= 0.0;
  }
}
