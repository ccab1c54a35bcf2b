/** A recipe: grams per food id, plus nutrient totals kept up to date
    incrementally by AddFood and RemoveFood. Recipes are immutable values here,
    so a clone can never be disturbed by later changes to its original. */
module Recipes {
  import opened Results
  import opened Catalog

  datatype Recipe = Recipe(
    nutrientTotals: map<int, real>,   // nutrient id -> total amount
    foodQuantities: map<int, int>)    // food id -> grams

  /** Reading a total the way the program reads a map: a missing key reads 0. */
  function Get(totals: map<int, real>, n: int): real
  {
    if n in totals then totals[n] else 0.0
  }

  /** Grams of a food, 0 when the recipe does not hold it. */
  function Grams(quantities: map<int, int>, id: int): int
  {
    if id in quantities then quantities[id] else 0
  }

  /** The update loop of AddFood/RemoveFood: each entry of a food adds
      `amountPerG * grams` to its nutrient's total (a removal passes minus the
      grams). A key that is missing is created, as `+=` on a map does. */
  function ApplyNutrients(totals: map<int, real>, entries: seq<NutrientInFood>, grams: real): (t: map<int, real>)
    ensures t.Keys == totals.Keys + NutrientIds(entries)
    ensures forall n :: Get(t, n) == Get(totals, n) + AmountIn(entries, grams, n)
    decreases |entries|
  {
    if |entries| == 0 then totals
    else
      var id := entries[0].nutrient.id;
      ApplyNutrients(totals[id := Get(totals, id) + entries[0].amountPerG * grams], entries[1..], grams)
  }

  /** The totals recomputed from scratch: the amount of nutrient `n` in each
      catalog food at the grams the recipe holds (0 for foods it does not hold). */
  function Expected(foods: seq<Food>, quantities: map<int, int>, n: int): real
    decreases |foods|
  {
    if |foods| == 0 then 0.0
    else AmountIn(foods[0].nutrients, Grams(quantities, foods[0].id) as real, n) + Expected(foods[1..], quantities, n)
  }

  /** The consistency the program means to assert: one total per catalog nutrient,
      each equal to the sum recomputed from the quantities. */
  predicate Consistent(cat: Catalog, r: Recipe)
  {
    && r.nutrientTotals.Keys == cat.nutrients.Keys
    && forall n :: n in r.nutrientTotals ==> r.nutrientTotals[n] == Expected(cat.foods, r.foodQuantities, n)
  }

  /** No food is held at zero (or fewer) grams. */
  predicate PositiveQuantities(r: Recipe)
  {
    forall id :: id in r.foodQuantities ==> r.foodQuantities[id] > 0
  }

  predicate Valid(cat: Catalog, r: Recipe)
  {
    PositiveQuantities(r) && Consistent(cat, r)
  }

  /** An empty recipe with every catalog nutrient's total seeded to 0. */
  function NewRecipe(cat: Catalog): (r: Recipe)
    ensures r.foodQuantities == map[]
    ensures Valid(cat, r)
  {
    var r := Recipe(map n | n in cat.nutrients.Keys :: 0.0, map[]);
    assert forall n :: Expected(cat.foods, map[], n) == 0.0 by {
      forall n ensures Expected(cat.foods, map[], n) == 0.0 {
        ExpectedOfEmpty(cat.foods, n);
      }
    }
    r
  }

  /** Compares the food quantities only: same number of entries, and every
      entry of the first found with the same grams in the second. */
  function Equals(r1: Recipe, r2: Recipe): (b: bool)
    ensures b <==> r1.foodQuantities == r2.foodQuantities
  {
    var q1, q2 := r1.foodQuantities, r2.foodQuantities;
    SameSizeEntriesEqual(q1, q2);
    |q1| == |q2| && forall id :: id in q1 ==> id in q2 && q1[id] == q2[id]
  }

  predicate HasFood(r: Recipe, f: Food)
  {
    f.id in r.foodQuantities
  }

  function AddFood(r: Recipe, f: Food, q: int): (r': Recipe)
    // the food is now held, with q more grams than before (q if it was absent)
    ensures HasFood(r', f) && Grams(r'.foodQuantities, f.id) == Grams(r.foodQuantities, f.id) + q
    // no other food changes
    ensures r'.foodQuantities.Keys == r.foodQuantities.Keys + {f.id}
    ensures forall id :: id in r.foodQuantities && id != f.id ==> id in r'.foodQuantities && r'.foodQuantities[id] == r.foodQuantities[id]
    // each total grows by q grams' worth of the food
    ensures r'.nutrientTotals.Keys == r.nutrientTotals.Keys + NutrientIds(f.nutrients)
    ensures forall n :: Get(r'.nutrientTotals, n) == Get(r.nutrientTotals, n) + AmountIn(f.nutrients, q as real, n)
  {
    var quantities :=
      if f.id in r.foodQuantities then r.foodQuantities[f.id := r.foodQuantities[f.id] + q]
      else r.foodQuantities[f.id := q];
    Recipe(ApplyNutrients(r.nutrientTotals, f.nutrients, q as real), quantities)
  }

  function RemoveFood(r: Recipe, f: Food, q: int): (res: Result<Recipe>)
    // the two refusals
    ensures !HasFood(r, f) ==> res == Failure(FoodNotInRecipe)
    ensures HasFood(r, f) && q > r.foodQuantities[f.id] ==> res == Failure(RemovingTooMuch)
    // otherwise q grams come off; an entry brought to exactly 0 is deleted
    ensures res.Success? <==> HasFood(r, f) && q <= r.foodQuantities[f.id]
    ensures res.Success? ==>
      && Grams(res.value.foodQuantities, f.id) == Grams(r.foodQuantities, f.id) - q
      && (HasFood(res.value, f) <==> q < r.foodQuantities[f.id])
      && res.value.foodQuantities.Keys - {f.id} == r.foodQuantities.Keys - {f.id}
      && (forall id :: id in r.foodQuantities && id != f.id ==> id in res.value.foodQuantities && res.value.foodQuantities[id] == r.foodQuantities[id])
      && res.value.nutrientTotals.Keys == r.nutrientTotals.Keys + NutrientIds(f.nutrients)
      && (forall n :: Get(res.value.nutrientTotals, n) == Get(r.nutrientTotals, n) - AmountIn(f.nutrients, q as real, n))
  {
    if f.id !in r.foodQuantities then Failure(FoodNotInRecipe)
    else
      var held := r.foodQuantities[f.id];
      if q > held then Failure(RemovingTooMuch)
      else
        var quantities :=
          if q == held then r.foodQuantities - {f.id}
          else r.foodQuantities[f.id := held - q];
        var totals := ApplyNutrients(r.nutrientTotals, f.nutrients, -(q as real));
        AmountsNegated(f.nutrients, q as real);
        Success(Recipe(totals, quantities))
  }

  /** A fresh recipe (every catalog nutrient seeded to 0) with the quantities
      and then the totals of `r` copied over it. */
  function Clone(cat: Catalog, r: Recipe): (c: Recipe)
    ensures Equals(c, r)
    ensures c.nutrientTotals.Keys == cat.nutrients.Keys + r.nutrientTotals.Keys
    ensures forall n :: Get(c.nutrientTotals, n) == Get(r.nutrientTotals, n)
    // once the totals cover the catalog's nutrients, the clone is that very recipe
    ensures cat.nutrients.Keys <= r.nutrientTotals.Keys ==> c == r
  {
    var seeded := NewRecipe(cat);
    Recipe(seeded.nutrientTotals + r.nutrientTotals, r.foodQuantities)
  }

  // ---------------------------------------------------------------------------
  // Helper facts

  /** Two maps with the same number of entries, where every entry of the first
      appears in the second, are equal. */
  lemma SameSizeEntriesEqual(q1: map<int, int>, q2: map<int, int>)
    ensures (|q1| == |q2| && forall id :: id in q1 ==> id in q2 && q1[id] == q2[id]) <==> q1 == q2
  {
    if |q1| == |q2| && forall id :: id in q1 ==> id in q2 && q1[id] == q2[id] {
      var k1, k2 := q1.Keys, q2.Keys;
      assert k1 <= k2;
      assert k2 == k1 + (k2 - k1);
      assert |k2| == |k1| + |k2 - k1|;
      assert |k1| == |q1| && |k2| == |q2|;
      assert k2 - k1 == {};
      assert k1 == k2;
    }
  }

  lemma AmountsNegated(entries: seq<NutrientInFood>, grams: real)
    ensures forall n :: AmountIn(entries, -grams, n) == - AmountIn(entries, grams, n)
  {
    forall n ensures AmountIn(entries, -grams, n) == - AmountIn(entries, grams, n) {
      AmountNegated(entries, grams, n);
    }
  }

  lemma {:induction false} ExpectedOfEmpty(foods: seq<Food>, n: int)
    ensures Expected(foods, map[], n) == 0.0
    decreases |foods|
  {
    if |foods| > 0 {
      AmountOfNothing(foods[0].nutrients, n);
      ExpectedOfEmpty(foods[1..], n);
    }
  }

  /** Expected depends only on the grams of the foods it sums over. */
  lemma {:induction false} ExpectedAgree(foods: seq<Food>, q1: map<int, int>, q2: map<int, int>, n: int)
    requires forall i :: 0 <= i < |foods| ==> Grams(q1, foods[i].id) == Grams(q2, foods[i].id)
    ensures Expected(foods, q1, n) == Expected(foods, q2, n)
    decreases |foods|
  {
    if |foods| > 0 {
      assert Grams(q1, foods[0].id) == Grams(q2, foods[0].id);
      ExpectedAgree(foods[1..], q1, q2, n);
    }
  }

  /** Changing one catalog food's grams by `d` changes each expected total by
      the amount of the nutrient in `d` grams of that food. */
  lemma {:induction false} ExpectedShift(foods: seq<Food>, q1: map<int, int>, q2: map<int, int>, f: Food, d: int, n: int)
    requires DistinctIds(foods) && f in foods
    requires forall id :: id != f.id ==> Grams(q2, id) == Grams(q1, id)
    requires Grams(q2, f.id) == Grams(q1, f.id) + d
    ensures Expected(foods, q2, n) == Expected(foods, q1, n) + AmountIn(f.nutrients, d as real, n)
    decreases |foods|
  {
    var g := foods[0];
    var rest := foods[1..];
    assert DistinctIds(rest) by {
      forall i, j | 0 <= i < j < |rest| ensures rest[i].id != rest[j].id {
        assert rest[i] == foods[i + 1] && rest[j] == foods[j + 1];
      }
    }
    if g == f {
      assert forall i :: 0 <= i < |rest| ==> rest[i].id != f.id by {
        forall i | 0 <= i < |rest| ensures rest[i].id != f.id {
          assert rest[i] == foods[i + 1];
        }
      }
      ExpectedAgree(rest, q1, q2, n);
      AmountAdditive(f.nutrients, Grams(q1, f.id) as real, d as real, n);
    } else {
      var j :| 0 <= j < |foods| && foods[j] == f;
      assert j > 0;
      assert g.id != f.id;
      assert f in rest by { assert rest[j - 1] == f; }
      ExpectedShift(rest, q1, q2, f, d, n);
    }
  }

  lemma {:induction false} ExpectedNonNegative(cat: Catalog, foods: seq<Food>, quantities: map<int, int>, n: int)
    requires NonNegativeAmounts(cat)
    requires forall i :: 0 <= i < |foods| ==> foods[i] in cat.foods
    requires forall id :: id in quantities ==> quantities[id] > 0
    ensures Expected(foods, quantities, n) >= 0.0
    decreases |foods|
  {
    if |foods| > 0 {
      var f := foods[0];
      var i :| 0 <= i < |cat.foods| && cat.foods[i] == f;
      AmountNonNegative(f.nutrients, Grams(quantities, f.id) as real, n);
      ExpectedNonNegative(cat, foods[1..], quantities, n);
    }
  }

  // ---------------------------------------------------------------------------
  // Properties of the operations

  /** Every total of a valid recipe over a catalog of non-negative amounts is
      non-negative. */
  lemma TotalsNonNegative(cat: Catalog, r: Recipe)
    requires NonNegativeAmounts(cat) && Valid(cat, r)
    ensures forall n :: Get(r.nutrientTotals, n) >= 0.0
  {
    forall n ensures Get(r.nutrientTotals, n) >= 0.0 {
      if n in r.nutrientTotals {
        ExpectedNonNegative(cat, cat.foods, r.foodQuantities, n);
      }
    }
  }

  /** AddFood of a catalog food with a positive amount keeps the recipe valid. */
  lemma AddFoodKeepsValid(cat: Catalog, r: Recipe, f: Food, q: int)
    requires WellFormed(cat) && f in cat.foods && Valid(cat, r) && q > 0
    ensures Valid(cat, AddFood(r, f, q))
  {
    var r' := AddFood(r, f, q);
    var i :| 0 <= i < |cat.foods| && cat.foods[i] == f;
    assert NutrientIds(f.nutrients) <= cat.nutrients.Keys;
    forall n | n in r'.nutrientTotals
      ensures r'.nutrientTotals[n] == Expected(cat.foods, r'.foodQuantities, n)
    {
      ExpectedShift(cat.foods, r.foodQuantities, r'.foodQuantities, f, q, n);
    }
  }

  /** A successful RemoveFood of a catalog food keeps the recipe valid. */
  lemma RemoveFoodKeepsValid(cat: Catalog, r: Recipe, f: Food, q: int)
    requires WellFormed(cat) && f in cat.foods && Valid(cat, r)
    requires RemoveFood(r, f, q).Success?
    ensures Valid(cat, RemoveFood(r, f, q).value)
  {
    var r' := RemoveFood(r, f, q).value;
    var i :| 0 <= i < |cat.foods| && cat.foods[i] == f;
    assert NutrientIds(f.nutrients) <= cat.nutrients.Keys;
    forall n | n in r'.nutrientTotals
      ensures r'.nutrientTotals[n] == Expected(cat.foods, r'.foodQuantities, n)
    {
      ExpectedShift(cat.foods, r.foodQuantities, r'.foodQuantities, f, -q, n);
      AmountNegated(f.nutrients, q as real, n);
    }
  }

  /** Adding and then removing the same amount restores the recipe exactly,
      provided no food was held at 0 grams and the totals already had a key for
      each of the food's nutrients. */
  lemma AddThenRemove(r: Recipe, f: Food, q: int)
    requires PositiveQuantities(r)
    requires NutrientIds(f.nutrients) <= r.nutrientTotals.Keys
    ensures RemoveFood(AddFood(r, f, q), f, q) == Success(r)
  {
    var added := AddFood(r, f, q);
    assert HasFood(added, f) && q <= added.foodQuantities[f.id];
    var back := RemoveFood(added, f, q).value;
    if f.id in r.foodQuantities {
      assert HasFood(back, f);
      assert back.foodQuantities[f.id] == r.foodQuantities[f.id];
    } else {
      assert !HasFood(back, f);
    }
    assert back.foodQuantities.Keys == r.foodQuantities.Keys;
    assert back.foodQuantities == r.foodQuantities;
    assert back.nutrientTotals.Keys == r.nutrientTotals.Keys;
    forall n | n in r.nutrientTotals ensures back.nutrientTotals[n] == r.nutrientTotals[n] {
      assert Get(back.nutrientTotals, n) == Get(r.nutrientTotals, n);
    }
    assert back.nutrientTotals == r.nutrientTotals;
  }

  /** Removing and then adding back the same amount restores the recipe exactly. */
  lemma RemoveThenAdd(r: Recipe, f: Food, q: int)
    requires RemoveFood(r, f, q).Success?
    requires NutrientIds(f.nutrients) <= r.nutrientTotals.Keys
    ensures AddFood(RemoveFood(r, f, q).value, f, q) == r
  {
    var removed := RemoveFood(r, f, q).value;
    var back := AddFood(removed, f, q);
    assert back.foodQuantities == r.foodQuantities;
    assert back.nutrientTotals.Keys == r.nutrientTotals.Keys;
    forall n | n in r.nutrientTotals ensures back.nutrientTotals[n] == r.nutrientTotals[n] {
      assert Get(back.nutrientTotals, n) == Get(r.nutrientTotals, n);
    }
    assert back.nutrientTotals == r.nutrientTotals;
  }
}
