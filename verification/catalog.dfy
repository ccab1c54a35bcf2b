/** The read-only catalog the optimiser works over: nutrient definitions, the
    name-to-id index used by the target table, and the foods with their
    per-gram nutrient contributions. Loading it from the USDA files is not
    part of this model; the catalog is an input. */
module Catalog {

  datatype Nutrient = Nutrient(id: int, units: string, description: string)

  /** One (nutrient, amount per gram) entry of a food. */
  datatype NutrientInFood = NutrientInFood(nutrient: Nutrient, amountPerG: real)

  datatype Food = Food(
    id: int,
    foodGroup: string,
    description: string,
    manufacturer: string,
    nutrients: seq<NutrientInFood>)

  /** The foods are a sequence so that the search visits them in a fixed order. */
  datatype Catalog = Catalog(
    nutrients: map<int, Nutrient>,
    nameToId: map<string, int>,
    foods: seq<Food>)

  /** The nutrient ids a food's entries mention. */
  function NutrientIds(entries: seq<NutrientInFood>): set<int>
  {
    if |entries| == 0 then {} else {entries[0].nutrient.id} + NutrientIds(entries[1..])
  }

  /** Amount of nutrient `n` in `grams` grams of a food: `amountPerG * grams`
      summed over the food's entries for `n` (a nutrient listed twice counts
      twice, as the update loops do). */
  function AmountIn(entries: seq<NutrientInFood>, grams: real, n: int): real
  {
    if |entries| == 0 then 0.0
    else (if entries[0].nutrient.id == n then entries[0].amountPerG * grams else 0.0) + AmountIn(entries[1..], grams, n)
  }

  /** A food has nothing of a nutrient it never mentions. */
  lemma {:induction false} AmountOutside(entries: seq<NutrientInFood>, grams: real, n: int)
    requires n !in NutrientIds(entries)
    ensures AmountIn(entries, grams, n) == 0.0
  {
    if |entries| > 0 {
      AmountOutside(entries[1..], grams, n);
    }
  }

  /** Amounts add up: `a + b` grams hold what `a` grams and `b` grams hold. */
  lemma {:induction false} AmountAdditive(entries: seq<NutrientInFood>, a: real, b: real, n: int)
    ensures AmountIn(entries, a + b, n) == AmountIn(entries, a, n) + AmountIn(entries, b, n)
  {
    if |entries| > 0 {
      AmountAdditive(entries[1..], a, b, n);
      var x := entries[0].amountPerG;
      assert x * (a + b) == x * a + x * b;
    }
  }

  /** Taking grams away removes exactly what adding them brought. */
  lemma AmountNegated(entries: seq<NutrientInFood>, grams: real, n: int)
    ensures AmountIn(entries, -grams, n) == - AmountIn(entries, grams, n)
  {
    AmountAdditive(entries, grams, -grams, n);
    AmountOfNothing(entries, n);
  }

  lemma {:induction false} AmountOfNothing(entries: seq<NutrientInFood>, n: int)
    ensures AmountIn(entries, 0.0, n) == 0.0
  {
    if |entries| > 0 {
      AmountOfNothing(entries[1..], n);
    }
  }

  predicate DistinctIds(foods: seq<Food>)
  {
    forall i, j :: 0 <= i < j < |foods| ==> foods[i].id != foods[j].id
  }

  /** What loading guarantees: food ids are unique (a duplicate aborts the load)
      and every entry refers to a defined nutrient (others are skipped). */
  predicate WellFormed(cat: Catalog)
  {
    && DistinctIds(cat.foods)
    && forall i :: 0 <= i < |cat.foods| ==> NutrientIds(cat.foods[i].nutrients) <= cat.nutrients.Keys
  }

  predicate NonNegativeEntries(entries: seq<NutrientInFood>)
  {
    forall k :: 0 <= k < |entries| ==> entries[k].amountPerG >= 0.0
  }

  /** Lab measurements are amounts, never negative. */
  predicate NonNegativeAmounts(cat: Catalog)
  {
    forall i :: 0 <= i < |cat.foods| ==> NonNegativeEntries(cat.foods[i].nutrients)
  }

  lemma {:induction false} AmountNonNegative(entries: seq<NutrientInFood>, grams: real, n: int)
    requires NonNegativeEntries(entries) && grams >= 0.0
    ensures AmountIn(entries, grams, n) >= 0.0
  {
    if |entries| > 0 {
      assert NonNegativeEntries(entries[1..]) by {
        forall k | 0 <= k < |entries[1..]| ensures entries[1..][k].amountPerG >= 0.0 {
          assert entries[1..][k] == entries[k + 1];
        }
      }
      AmountNonNegative(entries[1..], grams, n);
      assert entries[0].amountPerG * grams >= 0.0;
    }
  }
}
